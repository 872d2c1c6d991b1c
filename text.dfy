/**
 * The Kotlin string operations the core relies on, written out:
 * String.contains, String.split, String.trim(char), the decimal toString of
 * integers, and String.toInt / String.toLong (java.lang.Integer.parseInt and
 * Long.parseLong without their range check, which Int32 adds).
 */
module Text {
  import opened Outcomes

  /** `t` occurs in `s` starting at index `i`. */
  predicate OccursAt(s: string, t: string, i: int)
  {
    0 <= i && i + |t| <= |s| && s[i..i + |t|] == t
  }

  /** Kotlin's `s.contains(t)`. */
  function Contains(s: string, t: string): bool
  {
    if |t| <= |s| && s[..|t|] == t then true
    else if |s| == 0 then false
    else Contains(s[1..], t)
  }

  /** `s.contains(t)` holds exactly when `t` occurs somewhere in `s`. */
  lemma {:induction false} ContainsIsSubstring(s: string, t: string)
    ensures Contains(s, t) <==> exists i :: OccursAt(s, t, i)
  {
    if |t| <= |s| && s[..|t|] == t {
      assert OccursAt(s, t, 0);
    } else if |s| != 0 {
      ContainsIsSubstring(s[1..], t);
      if Contains(s[1..], t) {
        var i :| OccursAt(s[1..], t, i);
        assert s[1..][i..i + |t|] == s[i + 1..i + 1 + |t|];
        assert OccursAt(s, t, i + 1);
      }
      if exists i :: OccursAt(s, t, i) {
        var i :| OccursAt(s, t, i);
        assert s[1..][i - 1..i - 1 + |t|] == s[i..i + |t|];
        assert OccursAt(s[1..], t, i - 1);
      }
    }
  }

  /** Number of occurrences of `c` in `s`. */
  function Count(s: string, c: char): nat
  {
    if s == [] then 0 else (if s[0] == c then 1 else 0) + Count(s[1..], c)
  }

  /**
   * Kotlin's `s.split(c)`: the pieces between occurrences of `c`, keeping
   * empty pieces (also the leading and trailing ones); never an empty list.
   */
  function Split(s: string, c: char): (parts: seq<string>)
    ensures |parts| == Count(s, c) + 1
    ensures forall p <- parts :: c !in p
  {
    if s == [] then [[]]
    else
      var rest := Split(s[1..], c);
      if s[0] == c then [[]] + rest
      else [[s[0]] + rest[0]] + rest[1..]
  }

  /** The pieces glued back together with `c` between them. */
  function Join(parts: seq<string>, c: char): string
    requires |parts| >= 1
  {
    if |parts| == 1 then parts[0] else parts[0] + [c] + Join(parts[1..], c)
  }

  /** Splitting loses nothing: joining the pieces gives back the input. */
  lemma {:induction false} JoinSplit(s: string, c: char)
    ensures Join(Split(s, c), c) == s
  {
    if s != [] {
      var rest := Split(s[1..], c);
      JoinSplit(s[1..], c);
      if s[0] == c {
        assert ([[]] + rest)[1..] == rest;
      } else if |rest| == 1 {
        assert [s[0]] + rest[0] == s;
      } else {
        var parts := [[s[0]] + rest[0]] + rest[1..];
        assert parts[1..] == rest[1..];
        assert Join(rest, c) == rest[0] + [c] + Join(rest[1..], c);
      }
    }
  }

  /** A string without `c` splits into itself. */
  lemma {:induction false} SplitAbsent(s: string, c: char)
    requires c !in s
    ensures Split(s, c) == [s]
  {
    if s != [] {
      SplitAbsent(s[1..], c);
      assert [s[0]] + s[1..] == s;
    }
  }

  /** One `c` between two strings without `c` splits them apart again. */
  lemma {:induction false} SplitAround(a: string, b: string, c: char)
    requires c !in a && c !in b
    ensures Split(a + [c] + b, c) == [a, b]
  {
    var s := a + [c] + b;
    if a == [] {
      assert s[0] == c && s[1..] == b;
      SplitAbsent(b, c);
    } else {
      assert s[0] == a[0] && s[1..] == a[1..] + [c] + b;
      SplitAround(a[1..], b, c);
      assert [a[0]] + a[1..] == a;
    }
  }

  /** `s.trimStart(c)`: drops every leading `c`. */
  function TrimStart(s: string, c: char): string
  {
    if s != [] && s[0] == c then TrimStart(s[1..], c) else s
  }

  /** What `trimStart` keeps: a suffix that does not start with `c`, after nothing but `c`. */
  lemma {:induction false} TrimStartShape(s: string, c: char)
    ensures var r := TrimStart(s, c);
      |r| <= |s| && r == s[|s| - |r|..] &&
      (forall k :: 0 <= k < |s| - |r| ==> s[k] == c) &&
      (r == [] || r[0] != c)
  {
    if s != [] && s[0] == c {
      var t := s[1..];
      TrimStartShape(t, c);
      var r := TrimStart(t, c);
      assert TrimStart(s, c) == r;
      assert t[|t| - |r|..] == s[|s| - |r|..];
      forall k | 0 < k < |s| - |r| ensures s[k] == c {
        assert s[k] == t[k - 1];
      }
    }
  }

  /** `s.trimEnd(c)`: drops every trailing `c`. */
  function TrimEnd(s: string, c: char): string
  {
    if s != [] && s[|s| - 1] == c then TrimEnd(s[..|s| - 1], c) else s
  }

  /** What `trimEnd` keeps: a prefix that does not end with `c`, before nothing but `c`. */
  lemma {:induction false} TrimEndShape(s: string, c: char)
    ensures var r := TrimEnd(s, c);
      |r| <= |s| && r == s[..|r|] &&
      (forall k :: |r| <= k < |s| ==> s[k] == c) &&
      (r == [] || r[|r| - 1] != c)
  {
    if s != [] && s[|s| - 1] == c {
      var t := s[..|s| - 1];
      TrimEndShape(t, c);
      var r := TrimEnd(t, c);
      assert TrimEnd(s, c) == r;
      assert t[..|r|] == s[..|r|];
      forall k | |r| <= k < |s| - 1 ensures s[k] == c {
        assert s[k] == t[k];
      }
    }
  }

  /** Kotlin's `s.trim(c)`: drops every leading and every trailing `c`. */
  function Trim(s: string, c: char): string
  {
    TrimEnd(TrimStart(s, c), c)
  }

  /**
   * What `s.trim(c)` keeps: a contiguous slice `s[i..j]` that neither starts
   * nor ends with `c`, and everything cut off on either side is `c`.
   */
  lemma TrimIsSlice(s: string, c: char) returns (i: nat, j: nat)
    ensures i <= j <= |s| && Trim(s, c) == s[i..j]
    ensures forall k :: 0 <= k < i ==> s[k] == c
    ensures forall k :: j <= k < |s| ==> s[k] == c
    ensures Trim(s, c) == [] || (Trim(s, c)[0] != c && Trim(s, c)[|Trim(s, c)| - 1] != c)
  {
    var a := TrimStart(s, c);
    var b := TrimEnd(a, c);
    TrimStartShape(s, c);
    TrimEndShape(a, c);
    i := |s| - |a|;
    j := i + |b|;
    assert b == a[..|b|];
    assert a == s[i..];
    assert b == s[i..j];
    forall k | j <= k < |s| ensures s[k] == c {
      assert s[k] == a[k - i];
    }
  }

  /** One enclosing pair of `c` (as JSON puts around a string) makes no difference. */
  lemma {:induction false} TrimEnclosed(s: string, c: char)
    ensures Trim([c] + s + [c], c) == Trim(s, c)
  {
    var w := [c] + s + [c];
    assert w[1..] == s + [c];
    TrimStartAppend(s, c);
    var a := TrimStart(s, c);
    if a != [] {
      assert TrimStart(w, c) == a + [c];
      assert (a + [c])[..|a + [c]| - 1] == a;
    }
  }

  /** One trailing `c` survives trimming the start unless nothing else does. */
  lemma {:induction false} TrimStartAppend(s: string, c: char)
    ensures TrimStart(s + [c], c) == if TrimStart(s, c) == [] then [] else TrimStart(s, c) + [c]
  {
    var w := s + [c];
    if s == [] {
      assert w[1..] == [];
      assert TrimStart(w, c) == TrimStart([], c);
    } else if s[0] == c {
      assert w[0] == c && w[1..] == s[1..] + [c];
      assert TrimStart(w, c) == TrimStart(s[1..] + [c], c);
      assert TrimStart(s, c) == TrimStart(s[1..], c);
      TrimStartAppend(s[1..], c);
    } else {
      assert w[0] != c;
      assert TrimStart(w, c) == w;
      assert TrimStart(s, c) == s;
    }
  }

  /** A string without `c` is left as it is. */
  lemma TrimAbsent(s: string, c: char)
    requires c !in s
    ensures Trim(s, c) == s
  {
    if s != [] {
      assert s[0] != c && s[|s| - 1] != c;
    }
  }

  /** Trimming twice trims nothing more. */
  lemma TrimIdempotent(s: string, c: char)
    ensures Trim(Trim(s, c), c) == Trim(s, c)
  {
    var a := TrimStart(s, c);
    var t := TrimEnd(a, c);
    TrimStartShape(s, c);
    TrimEndShape(a, c);
    if t != [] {
      assert t[0] == a[0];
      assert TrimStart(t, c) == t;
    }
  }

  // ---- decimal text of integers ----

  predicate IsDigit(ch: char)
  {
    '0' <= ch <= '9'
  }

  predicate AllDigits(s: string)
  {
    forall k :: 0 <= k < |s| ==> IsDigit(s[k])
  }

  function DigitChar(d: nat): (ch: char)
    requires d < 10
    ensures IsDigit(ch)
  {
    ('0' as int + d) as char
  }

  function DigitValue(ch: char): nat
    requires IsDigit(ch)
  {
    ch as int - '0' as int
  }

  /** Decimal digits of a natural number, without leading zeros. */
  function ShowNat(n: nat): (s: string)
    ensures |s| >= 1 && AllDigits(s)
  {
    if n < 10 then [DigitChar(n)] else ShowNat(n / 10) + [DigitChar(n % 10)]
  }

  /** Kotlin's `toString()` of an Int or a Long. */
  function ShowInt(n: int): string
  {
    if n < 0 then "-" + ShowNat(-n) else ShowNat(n)
  }

  /** The value of a string of decimal digits, most significant first. */
  function DigitsValue(s: string): nat
    requires AllDigits(s)
  {
    if s == [] then 0 else DigitsValue(s[..|s| - 1]) * 10 + DigitValue(s[|s| - 1])
  }

  /**
   * The number java.lang.Integer.parseInt / Long.parseLong read from `s`
   * before their range check: an optional '+' or '-' followed by at least
   * one decimal digit, and nothing else.
   */
  function ParseDecimal(s: string): Option<int>
  {
    if |s| == 0 then None
    else if s[0] == '-' || s[0] == '+' then
      if |s| > 1 && AllDigits(s[1..]) then
        var v: int := DigitsValue(s[1..]);
        Some(if s[0] == '-' then -v else v)
      else None
    else if AllDigits(s) then Some(DigitsValue(s))
    else None
  }

  lemma {:induction false} DigitsOfShowNat(n: nat)
    ensures DigitsValue(ShowNat(n)) == n
  {
    var s := ShowNat(n);
    if n >= 10 {
      DigitsOfShowNat(n / 10);
      assert s[..|s| - 1] == ShowNat(n / 10);
    }
  }

  /** Reading back the decimal text of any integer gives that integer. */
  lemma ParseShowInt(n: int)
    ensures ParseDecimal(ShowInt(n)) == Some(n)
  {
    if n < 0 {
      DigitsOfShowNat(-n);
      ParseNegative(ShowNat(-n));
    } else {
      DigitsOfShowNat(n);
      ParseDigits(ShowNat(n));
    }
  }

  lemma ParseDigits(d: string)
    requires |d| >= 1 && AllDigits(d)
    ensures ParseDecimal(d) == Some(DigitsValue(d))
  {
    assert IsDigit(d[0]);
  }

  lemma ParseNegative(d: string)
    requires |d| >= 1 && AllDigits(d)
    ensures ParseDecimal("-" + d) == Some(-(DigitsValue(d) as int))
  {
    var s := "-" + d;
    assert s[0] == '-' && s[1..] == d;
  }

  /** Two integers have the same decimal text exactly when they are equal. */
  lemma ShowIntInjective(n: int, m: int)
    ensures ShowInt(n) == ShowInt(m) <==> n == m
  {
    if ShowInt(n) == ShowInt(m) {
      ParseShowInt(n);
      ParseShowInt(m);
    }
  }

  /** The text of an integer never contains `c` unless `c` is a digit or '-'. */
  lemma ShowIntAvoids(n: int, c: char)
    requires !IsDigit(c) && c != '-'
    ensures c !in ShowInt(n)
  {
  }
}
