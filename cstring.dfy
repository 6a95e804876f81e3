/**
 * The string routines of hw02/string.c over NUL-terminated character
 * buffers: strlen, strcpy, strcat and strcmp, each in a pointer ("_p") and
 * an index ("_a") version. A buffer is an `array<char>`; the string it holds
 * is the part before its first NUL.
 */
module CString {
  const NUL: char := '\0'

  /** The index of the first NUL: the length of the string the buffer holds. */
  function StrLen(s: seq<char>): (n: nat)
    requires NUL in s
    ensures n < |s| && s[n] == NUL
    ensures forall k :: 0 <= k < n ==> s[k] != NUL
  {
    if s[0] == NUL then 0 else 1 + StrLen(s[1..])
  }

  /** The string a terminated buffer holds. */
  function Str(s: seq<char>): (r: string)
    requires NUL in s
    ensures NUL !in r && |r| == StrLen(s)
  {
    s[..StrLen(s)]
  }

  /** A NUL at n with none before it fixes the length at n. */
  lemma StrLenAt(s: seq<char>, n: int)
    requires 0 <= n < |s| && s[n] == NUL
    requires forall k :: 0 <= k < n ==> s[k] != NUL
    ensures StrLen(s) == n && Str(s) == s[..n]
  {
  }

  /** strlen_p: advance an offset from the start while the byte is not NUL. */
  method StrLenP(str: array<char>) returns (len: int)
    requires NUL in str[..]
    ensures len == StrLen(str[..])
  {
    len := 0;
    while str[len] != NUL
      invariant 0 <= len <= StrLen(str[..])
      decreases StrLen(str[..]) - len
    {
      len := len + 1;
    }
  }

  /** strlen_a: the same scan with an index. */
  method StrLenA(str: array<char>) returns (i: int)
    requires NUL in str[..]
    ensures i == StrLen(str[..])
  {
    i := 0;
    while str[i] != NUL
      invariant 0 <= i <= StrLen(str[..])
      decreases StrLen(str[..]) - i
    {
      i := i + 1;
    }
  }

  /**
   * strcpy_p: copy src, terminator included, to the start of dst. Bytes of
   * dst after the copied terminator are left alone.
   */
  method StrCpyP(dst: array<char>, src: array<char>)
    requires dst != src && NUL in src[..] && StrLen(src[..]) < dst.Length
    modifies dst
    ensures var n := StrLen(src[..]);
      dst[..n + 1] == src[..n + 1] && dst[n + 1..] == old(dst[n + 1..])
    ensures NUL in dst[..] && Str(dst[..]) == Str(src[..])
  {
    ghost var n := StrLen(src[..]);
    var d, s := 0, 0;
    while src[s] != NUL
      invariant 0 <= s <= n && d == s
      invariant dst[..s] == src[..s] && dst[n + 1..] == old(dst[n + 1..])
      decreases n - s
    {
      dst[d] := src[s];
      d, s := d + 1, s + 1;
    }
    dst[d] := src[s];
    assert dst[..n + 1] == src[..n + 1];
    assert dst[n] == NUL && forall k :: 0 <= k < n ==> dst[k] == src[k];
    StrLenAt(dst[..], n);
  }

  /** strcpy_a: the same copy with an index. */
  method StrCpyA(dst: array<char>, src: array<char>)
    requires dst != src && NUL in src[..] && StrLen(src[..]) < dst.Length
    modifies dst
    ensures var n := StrLen(src[..]);
      dst[..n + 1] == src[..n + 1] && dst[n + 1..] == old(dst[n + 1..])
    ensures NUL in dst[..] && Str(dst[..]) == Str(src[..])
  {
    ghost var n := StrLen(src[..]);
    var i := 0;
    while src[i] != NUL
      invariant 0 <= i <= n
      invariant dst[..i] == src[..i] && dst[n + 1..] == old(dst[n + 1..])
      decreases n - i
    {
      dst[i] := src[i];
      i := i + 1;
    }
    dst[i] := src[i];
    assert dst[..n + 1] == src[..n + 1];
    assert dst[n] == NUL && forall k :: 0 <= k < n ==> dst[k] == src[k];
    StrLenAt(dst[..], n);
  }

  /**
   * strcat_p: walk past dst's terminator with a post-increment, step back
   * onto it, then copy src there, terminator included. The old string of
   * dst is kept, src's string follows it, and the bytes after the new
   * terminator are left alone.
   */
  method StrCatP(dst: array<char>, src: array<char>)
    requires dst != src && NUL in dst[..] && NUL in src[..]
    requires StrLen(dst[..]) + StrLen(src[..]) < dst.Length
    modifies dst
    ensures NUL in dst[..] && Str(dst[..]) == old(Str(dst[..])) + Str(src[..])
    ensures var end := old(StrLen(dst[..])) + StrLen(src[..]);
      dst[end + 1..] == old(dst[end + 1..])
  {
    ghost var n := StrLen(dst[..]);
    ghost var m := StrLen(src[..]);
    ghost var before := dst[..];
    var d := 0;
    var c := dst[d];
    d := d + 1;
    while c != NUL
      invariant 1 <= d <= n + 1 && c == dst[d - 1]
      invariant forall k :: 0 <= k < d - 1 ==> dst[k] != NUL
      decreases n + 1 - d
    {
      c := dst[d];
      d := d + 1;
    }
    d := d - 1;
    assert d == n;
    var s := 0;
    while src[s] != NUL
      invariant 0 <= s <= m && d == n + s
      invariant forall k :: 0 <= k < n ==> dst[k] == before[k]
      invariant forall k :: 0 <= k < s ==> dst[n + k] == src[k]
      invariant forall k :: n + m + 1 <= k < dst.Length ==> dst[k] == before[k]
      decreases m - s
    {
      dst[d] := src[s];
      d, s := d + 1, s + 1;
    }
    dst[d] := src[s];
    CatResult(before, dst[..], src[..], n, m);
  }

  /** strcat_a: find dst's terminator by index, then copy src behind it. */
  method StrCatA(dst: array<char>, src: array<char>)
    requires dst != src && NUL in dst[..] && NUL in src[..]
    requires StrLen(dst[..]) + StrLen(src[..]) < dst.Length
    modifies dst
    ensures NUL in dst[..] && Str(dst[..]) == old(Str(dst[..])) + Str(src[..])
    ensures var end := old(StrLen(dst[..])) + StrLen(src[..]);
      dst[end + 1..] == old(dst[end + 1..])
  {
    ghost var n := StrLen(dst[..]);
    ghost var m := StrLen(src[..]);
    ghost var before := dst[..];
    var i := 0;
    while dst[i] != NUL
      invariant 0 <= i <= n
      decreases n - i
    {
      i := i + 1;
    }
    var j := 0;
    while src[j] != NUL
      invariant 0 <= j <= m && i == n
      invariant forall k :: 0 <= k < n ==> dst[k] == before[k]
      invariant forall k :: 0 <= k < j ==> dst[n + k] == src[k]
      invariant forall k :: n + m + 1 <= k < dst.Length ==> dst[k] == before[k]
      decreases m - j
    {
      dst[i + j] := src[j];
      j := j + 1;
    }
    dst[i + j] := NUL;
    CatResult(before, dst[..], src[..], n, m);
  }

  /** The buffer strcat leaves: old string, then src's string, then NUL. */
  lemma CatResult(before: seq<char>, after: seq<char>, src: seq<char>, n: int, m: int)
    requires NUL in before && NUL in src && n == StrLen(before) && m == StrLen(src)
    requires |after| == |before| && n + m < |after|
    requires forall k :: 0 <= k < n ==> after[k] == before[k]
    requires forall k :: 0 <= k < m ==> after[n + k] == src[k]
    requires after[n + m] == NUL
    requires forall k :: n + m + 1 <= k < |after| ==> after[k] == before[k]
    ensures NUL in after && Str(after) == Str(before) + Str(src)
    ensures after[n + m + 1..] == before[n + m + 1..]
  {
    forall k | 0 <= k < n + m
      ensures after[k] != NUL && after[k] == (before[..n] + src[..m])[k]
    {
      if k < n {
        assert after[k] == before[k];
      } else {
        assert after[n + (k - n)] == src[k - n];
      }
    }
    StrLenAt(after, n + m);
    assert after[..n + m] == before[..n] + src[..m];
    assert after[n + m + 1..] == before[n + m + 1..];
  }

  /**
   * Three-way comparison of two strings by character code, as strcmp_p
   * computes it: -1, 0 or 1. A string that runs out first compares as its
   * NUL, which is below every character.
   */
  function Compare(a: string, b: string): int
  {
    if |a| == 0 && |b| == 0 then 0
    else if |a| == 0 then -1
    else if |b| == 0 then 1
    else if a[0] < b[0] then -1
    else if a[0] > b[0] then 1
    else Compare(a[1..], b[1..])
  }

  /** `a` sorts before `b`: a proper prefix of it, or smaller at the first difference. */
  predicate Precedes(a: string, b: string)
  {
    (|a| < |b| && a == b[..|a|]) ||
    exists k :: 0 <= k < |a| && k < |b| && a[..k] == b[..k] && a[k] < b[k]
  }

  /** Compare is 0 exactly on equal strings. */
  lemma {:induction false} CompareZeroIffEqual(a: string, b: string)
    ensures Compare(a, b) == 0 <==> a == b
    decreases |a|
  {
    if |a| > 0 && |b| > 0 && a[0] == b[0] {
      CompareZeroIffEqual(a[1..], b[1..]);
      if a[1..] == b[1..] {
        assert a == [a[0]] + a[1..] && b == [b[0]] + b[1..];
      }
    }
  }

  /** Compare is antisymmetric: swapping the arguments negates the result. */
  lemma {:induction false} CompareAntisymmetric(a: string, b: string)
    ensures Compare(a, b) == -Compare(b, a)
    ensures -1 <= Compare(a, b) <= 1
    decreases |a|
  {
    if |a| > 0 && |b| > 0 && a[0] == b[0] {
      CompareAntisymmetric(a[1..], b[1..]);
    }
  }

  /** Compare is -1 exactly when the first string sorts before the second. */
  lemma {:induction false} CompareNegativeIffPrecedes(a: string, b: string)
    ensures Compare(a, b) == -1 <==> Precedes(a, b)
    decreases |a|
  {
    if |a| == 0 {
      if |b| == 0 {
        assert !Precedes(a, b);
      }
    } else if |b| == 0 {
      assert !Precedes(a, b);
    } else if a[0] < b[0] {
      assert a[..0] == b[..0];
    } else if a[0] > b[0] {
      assert !Precedes(a, b);
    } else {
      CompareNegativeIffPrecedes(a[1..], b[1..]);
      var a', b' := a[1..], b[1..];
      if Precedes(a', b') {
        if |a'| < |b'| && a' == b'[..|a'|] {
          assert a == [a[0]] + a' && b[..|a|] == [b[0]] + b'[..|a'|];
        } else {
          var k :| 0 <= k < |a'| && k < |b'| && a'[..k] == b'[..k] && a'[k] < b'[k];
          assert a[..k + 1] == [a[0]] + a'[..k] && b[..k + 1] == [b[0]] + b'[..k];
        }
      }
      if Precedes(a, b) {
        if |a| < |b| && a == b[..|a|] {
          assert a' == b'[..|a'|];
        } else {
          var k :| 0 <= k < |a| && k < |b| && a[..k] == b[..k] && a[k] < b[k];
          assert k > 0;
          assert a'[..k - 1] == a[1..k] == b[1..k] == b'[..k - 1];
          assert a'[k - 1] < b'[k - 1];
        }
      }
    }
  }

  /** The comparison of the strings from index i on, when they agree before i. */
  lemma CompareStep(a: string, b: string, i: int)
    requires 0 <= i < |a| && i < |b| && a[i] == b[i]
    ensures Compare(a[i..], b[i..]) == Compare(a[i + 1..], b[i + 1..])
  {
    assert a[i..][1..] == a[i + 1..] && b[i..][1..] == b[i + 1..];
  }

  /**
   * strcmp_p: step both pointers while either byte is not NUL; the first
   * difference decides, and reaching both terminators together gives 0.
   */
  method StrCmpP(dst: array<char>, src: array<char>) returns (r: int)
    requires NUL in dst[..] && NUL in src[..]
    ensures r == Compare(Str(dst[..]), Str(src[..]))
  {
    ghost var a, b := Str(dst[..]), Str(src[..]);
    var i := 0;
    while dst[i] != NUL || src[i] != NUL
      invariant 0 <= i <= |a| && i <= |b|
      invariant Compare(a, b) == Compare(a[i..], b[i..])
      decreases |a| - i
    {
      if dst[i] < src[i] {
        return -1;
      } else if dst[i] > src[i] {
        return 1;
      }
      CompareStep(a, b, i);
      i := i + 1;
    }
    return 0;
  }

  /**
   * What strcmp_a computes: the loop runs only while dst's byte is not NUL,
   * and reaching dst's terminator always gives 0.
   */
  function CompareAsWritten(a: string, b: string): int
  {
    if |a| == 0 then 0
    else if |b| == 0 || a[0] > b[0] then 1
    else if a[0] < b[0] then -1
    else CompareAsWritten(a[1..], b[1..])
  }

  /**
   * strcmp_a as written: index both buffers while dst's byte is not NUL.
   * When dst ends first it returns 0 without looking at src.
   */
  method StrCmpA(dst: array<char>, src: array<char>) returns (r: int)
    requires NUL in dst[..] && NUL in src[..]
    ensures r == CompareAsWritten(Str(dst[..]), Str(src[..]))
  {
    ghost var a, b := Str(dst[..]), Str(src[..]);
    var i := 0;
    while dst[i] != NUL
      invariant 0 <= i <= |a| && i <= |b|
      invariant CompareAsWritten(a, b) == CompareAsWritten(a[i..], b[i..])
      decreases |a| - i
    {
      if dst[i] > src[i] {
        return 1;
      } else if dst[i] < src[i] {
        return -1;
      }
      assert a[i..][1..] == a[i + 1..] && b[i..][1..] == b[i + 1..];
      i := i + 1;
    }
    return 0;
  }

  /** strcmp_a calls a proper prefix equal to the longer string. */
  lemma StrCmpAPrefixCounterexample()
    ensures CompareAsWritten("ab", "abc") == 0
    ensures Compare("ab", "abc") == -1 && "ab" != "abc"
  {
    assert "ab"[1..] == "b" && "abc"[1..] == "bc";
    assert "b"[1..] == "" && "bc"[1..] == "c";
  }

  /** Apart from that case, strcmp_a agrees with strcmp_p. */
  lemma {:induction false} CompareAsWrittenAgrees(a: string, b: string)
    ensures !(|a| < |b| && a == b[..|a|]) ==> CompareAsWritten(a, b) == Compare(a, b)
    ensures |a| < |b| && a == b[..|a|] ==> CompareAsWritten(a, b) == 0
    decreases |a|
  {
    if |a| > 0 && |b| > 0 && a[0] == b[0] {
      CompareAsWrittenAgrees(a[1..], b[1..]);
      if |a| < |b| && a == b[..|a|] {
        assert a[1..] == b[1..][..|a| - 1];
      }
      if |a[1..]| < |b[1..]| && a[1..] == b[1..][..|a| - 1] {
        assert a == [a[0]] + a[1..] && b[..|a|] == [b[0]] + b[1..][..|a| - 1];
      }
    }
  }

  /**
   * strcmp_a corrected: the same loop, and when dst ends, 0 only if src ends
   * there too, -1 otherwise. It computes exactly what strcmp_p computes.
   */
  method StrCmpAFixed(dst: array<char>, src: array<char>) returns (r: int)
    requires NUL in dst[..] && NUL in src[..]
    ensures r == Compare(Str(dst[..]), Str(src[..]))
  {
    ghost var a, b := Str(dst[..]), Str(src[..]);
    var i := 0;
    while dst[i] != NUL
      invariant 0 <= i <= |a| && i <= |b|
      invariant Compare(a, b) == Compare(a[i..], b[i..])
      decreases |a| - i
    {
      if dst[i] > src[i] {
        return 1;
      } else if dst[i] < src[i] {
        return -1;
      }
      CompareStep(a, b, i);
      i := i + 1;
    }
    if src[i] != NUL {
      return -1;
    }
    return 0;
  }
}
