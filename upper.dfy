/**
 * to_uppercase of hw03/upper.c (the same routine appears in midterm/upper.c):
 * walk a NUL-terminated buffer in place and turn each ASCII lower-case letter
 * into its upper-case partner by subtracting 'a' - 'A'.
 */
module Upper {
  import opened CString

  /** The distance 'a' - 'A' that the routine subtracts. */
  const CaseGap: int := 'a' as int - 'A' as int

  predicate IsLower(c: char)
  {
    'a' <= c <= 'z'
  }

  /** One character as the loop body leaves it. */
  function UpperChar(c: char): char
  {
    if IsLower(c) then (c as int - CaseGap) as char else c
  }

  /** The string the routine leaves, built one character at a time from the front. */
  function Uppercase(s: string): string
  {
    if |s| == 0 then [] else Uppercase(s[..|s| - 1]) + [UpperChar(s[|s| - 1])]
  }

  /**
   * Every lower-case letter becomes the matching capital ('A'..'Z', 32
   * below it), every other character is unchanged, and the length is kept.
   */
  lemma {:induction false} UppercaseAt(s: string)
    ensures |Uppercase(s)| == |s|
    ensures forall k :: 0 <= k < |s| && IsLower(s[k]) ==>
      'A' <= Uppercase(s)[k] <= 'Z' && Uppercase(s)[k] as int == s[k] as int - CaseGap
    ensures forall k :: 0 <= k < |s| && !IsLower(s[k]) ==> Uppercase(s)[k] == s[k]
  {
    if |s| > 0 {
      UppercaseAt(s[..|s| - 1]);
    }
  }

  /** Upper-casing an upper-cased string changes nothing. */
  lemma {:induction false} UppercaseIdempotent(s: string)
    ensures Uppercase(Uppercase(s)) == Uppercase(s)
  {
    if |s| > 0 {
      var init := s[..|s| - 1];
      UppercaseAt(init);
      UppercaseIdempotent(init);
      var u := Uppercase(s);
      assert u[..|u| - 1] == Uppercase(init);
      assert !IsLower(UpperChar(s[|s| - 1]));
    }
  }

  /** Upper-casing never introduces a NUL, so the terminator stays where it was. */
  lemma UppercaseKeepsNul(s: string)
    requires NUL !in s
    ensures NUL !in Uppercase(s)
  {
    UppercaseAt(s);
  }

  /**
   * to_uppercase: in place, up to the first NUL. The string becomes its
   * upper-cased form, the terminator stays in place, and the bytes after
   * it are not touched.
   */
  method ToUppercase(str: array<char>)
    requires NUL in str[..]
    modifies str
    ensures NUL in str[..] && StrLen(str[..]) == old(StrLen(str[..]))
    ensures Str(str[..]) == Uppercase(old(Str(str[..])))
    ensures str[StrLen(str[..])..] == old(str[StrLen(str[..])..])
  {
    ghost var s := Str(str[..]);
    ghost var n := |s|;
    ghost var before := str[..];
    var p := 0;
    while str[p] != NUL
      invariant 0 <= p <= n
      invariant str[..p] == Uppercase(s[..p])
      invariant forall k :: p <= k < str.Length ==> str[k] == before[k]
      decreases n - p
    {
      if str[p] >= 'a' && str[p] <= 'z' {
        str[p] := (str[p] as int - ('a' as int - 'A' as int)) as char;
      }
      assert s[..p + 1][..p] == s[..p];
      p := p + 1;
    }
    assert s[..p] == s;
    assert str[n..] == before[n..];
    UppercaseKeepsNul(s);
    StrLenAt(str[..], n);
  }
}
