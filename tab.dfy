/**
 * hw03/tab.c: copy a text file to `<name>.t`, writing each tab at the start
 * of a line as four spaces. A `first` flag is set at the start of the file
 * and after every newline and cleared by the first character that is not a
 * tab. File contents are character sequences; opening a file is an input
 * that says whether fopen succeeded.
 */
module Tab {
  import opened CString

  const Tab: char := '\t'
  const Newline: char := '\n'
  const FourSpaces: string := "    "

  /** The size of the `fdest` buffer the destination name is built in. */
  const DestSize: int := 40

  /** What conv writes for one character read with the flag at `first`. */
  function Emit(c: char, first: bool): string
  {
    if first && c == Tab then FourSpaces else [c]
  }

  /** The flag after one character: kept by a leading tab, otherwise set exactly by a newline. */
  function NextFirst(c: char, first: bool): bool
  {
    if first && c == Tab then true else c == Newline
  }

  /**
   * The text conv writes for `s` when the flag starts as `first`, one input
   * character at a time.
   */
  function Expand(s: string, first: bool): string
  {
    if |s| == 0 then [] else Emit(s[0], first) + Expand(s[1..], NextFirst(s[0], first))
  }

  /** The number of tabs at the front of `s`. */
  function LeadingTabs(s: string): (n: nat)
    ensures n <= |s|
    ensures forall k :: 0 <= k < n ==> s[k] == Tab
    ensures n < |s| ==> s[n] != Tab
  {
    if |s| == 0 || s[0] != Tab then 0 else 1 + LeadingTabs(s[1..])
  }

  /** n copies of four spaces. */
  function Spaces(n: nat): (r: string)
    ensures |r| == 4 * n && forall k :: 0 <= k < |r| ==> r[k] == ' '
  {
    if n == 0 then [] else FourSpaces + Spaces(n - 1)
  }

  /** A piece of text within one line. */
  predicate NoNewline(line: string)
  {
    forall k :: 0 <= k < |line| ==> line[k] != Newline
  }

  /** Once the flag is down, nothing is expanded until the next newline. */
  lemma {:induction false} ExpandMidLine(line: string)
    requires NoNewline(line)
    ensures Expand(line, false) == line
  {
    if |line| > 0 {
      ExpandMidLine(line[1..]);
      assert line == [line[0]] + line[1..];
    }
  }

  /**
   * One line (no newline in it) from its start: its leading tabs become four
   * spaces each and the rest, later tabs included, is copied unchanged.
   */
  lemma {:induction false} ExpandLine(line: string)
    requires NoNewline(line)
    ensures Expand(line, true) == Spaces(LeadingTabs(line)) + line[LeadingTabs(line)..]
  {
    if |line| == 0 {
    } else if line[0] == Tab {
      ExpandLine(line[1..]);
      assert line[1..][LeadingTabs(line[1..])..] == line[LeadingTabs(line)..];
    } else {
      ExpandMidLine(line[1..]);
      assert line == [line[0]] + line[1..];
    }
  }

  /**
   * A newline ends the line and restores the flag: each line of the file
   * is converted on its own.
   */
  lemma {:induction false} ExpandLines(line: string, rest: string, first: bool)
    requires NoNewline(line)
    ensures Expand(line + [Newline] + rest, first) == Expand(line, first) + [Newline] + Expand(rest, true)
  {
    var s := line + [Newline] + rest;
    if |line| == 0 {
      assert s[0] == Newline && s[1..] == rest;
    } else {
      var c := line[0];
      assert s[0] == c && s[1..] == line[1..] + [Newline] + rest;
      ExpandLines(line[1..], rest, NextFirst(c, first));
    }
  }

  /** Each leading tab adds three characters to the line. */
  lemma LineLength(line: string)
    requires NoNewline(line)
    ensures |Expand(line, true)| == |line| + 3 * LeadingTabs(line)
  {
    ExpandLine(line);
  }

  /**
   * Expand from position i takes one character, then goes on from i + 1;
   * `done` is what was written before position i.
   */
  lemma ExpandStep(done: string, input: string, i: int, first: bool)
    requires 0 <= i < |input|
    ensures done + Expand(input[i..], first)
         == (done + Emit(input[i], first)) + Expand(input[i + 1..], NextFirst(input[i], first))
  {
    assert input[i..][1..] == input[i + 1..];
    var e, rest := Emit(input[i], first), Expand(input[i + 1..], NextFirst(input[i], first));
    assert Expand(input[i..], first) == e + rest;
    assert done + (e + rest) == (done + e) + rest;
  }

  /**
   * The body of conv's character loop for one character `ch`: four spaces for
   * a tab while `first` is set, otherwise `ch` itself, clearing `first` and
   * setting it again on a newline.
   */
  method ConvChar(ch: char, first: bool) returns (piece: string, first': bool)
    ensures piece == Emit(ch, first) && first' == NextFirst(ch, first)
    ensures first && ch == Tab ==> piece == "    " && first'
    ensures !(first && ch == Tab) ==> piece == [ch] && (first' <==> ch == Newline)
  {
    first' := first;
    if first' && ch == Tab {
      piece := [' ', ' ', ' ', ' '];
    } else {
      piece := [ch];
      if first' {
        first' := false;
      }
      if ch == Newline {
        first' := true;
      }
    }
  }

  /**
   * conv's character loop: read until EOF, expanding tabs while `first` is
   * set. The output is `Expand` of the whole input from line start.
   */
  method ConvText(input: string) returns (output: string)
    ensures output == Expand(input, true)
  {
    output := [];
    var first := true;
    var i := 0;
    while i < |input|
      invariant 0 <= i <= |input|
      invariant output + Expand(input[i..], first) == Expand(input, true)
    {
      var ch := input[i];
      ExpandStep(output, input, i, first);
      var piece;
      piece, first := ConvChar(ch, first);
      output := output + piece;
      i := i + 1;
    }
  }

  /**
   * The destination name: strcpy the source name into `fdest[40]`, then
   * strcat ".t". The name must leave room for ".t" and the terminator.
   */
  method DestName(fname: array<char>) returns (fdest: array<char>)
    requires NUL in fname[..] && StrLen(fname[..]) <= DestSize - 3
    ensures fdest.Length == DestSize && NUL in fdest[..]
    ensures Str(fdest[..]) == Str(fname[..]) + ".t"
  {
    fdest := new char[DestSize](_ => NUL);
    StrCpyA(fdest, fname);
    var suffix := new char[3];
    suffix[0], suffix[1], suffix[2] := '.', 't', NUL;
    StrLenAt(suffix[..], 2);
    assert Str(suffix[..]) == ".t";
    StrCatA(fdest, suffix);
  }

  /** What conv does with one file. */
  datatype ConvOutcome =
    | SourceOpenFailed
    | DestOpenFailed(dest: string)
    | Written(dest: string, text: string)

  /**
   * conv(fname): give up when the source cannot be opened; otherwise build
   * `<fname>.t`, give up when it cannot be opened, and otherwise write the
   * converted text to it.
   */
  method Conv(fname: array<char>, srcOpens: bool, dstOpens: bool, input: string)
    returns (outcome: ConvOutcome)
    requires NUL in fname[..]
    requires srcOpens ==> StrLen(fname[..]) <= DestSize - 3
    ensures !srcOpens ==> outcome == SourceOpenFailed
    ensures srcOpens && !dstOpens ==> outcome == DestOpenFailed(Str(fname[..]) + ".t")
    ensures srcOpens && dstOpens ==> outcome == Written(Str(fname[..]) + ".t", Expand(input, true))
  {
    if !srcOpens {
      return SourceOpenFailed;
    }
    var fdest := DestName(fname);
    var dest := Str(fdest[..]);
    if !dstOpens {
      return DestOpenFailed(dest);
    }
    var text := ConvText(input);
    return Written(dest, text);
  }

  /**
   * main: `while (--argc) conv(argv[argc]);` converts the arguments from
   * the last to the first, skipping the program name.
   */
  method ConvOrder(argv: seq<string>) returns (order: seq<string>)
    requires |argv| >= 1
    ensures |order| == |argv| - 1
    ensures forall k :: 0 <= k < |order| ==> order[k] == argv[|argv| - 1 - k]
  {
    order := [];
    var argc := |argv|;
    argc := argc - 1;
    while argc != 0
      invariant 0 <= argc < |argv|
      invariant |order| == |argv| - 1 - argc
      invariant forall k :: 0 <= k < |order| ==> order[k] == argv[|argv| - 1 - k]
    {
      order := order + [argv[argc]];
      argc := argc - 1;
    }
  }

  /** Every argument but the program name is converted exactly once. */
  lemma {:induction false} ConvOrderCoversArguments(argv: seq<string>, order: seq<string>)
    requires |argv| >= 1 && |order| == |argv| - 1
    requires forall k :: 0 <= k < |order| ==> order[k] == argv[|argv| - 1 - k]
    ensures multiset(order) == multiset(argv[1..])
  {
    if |argv| > 1 {
      var last := |argv| - 1;
      ConvOrderCoversArguments(argv[..last], order[1..]);
      assert argv[..last][1..] == argv[1..last];
      assert order == [argv[last]] + order[1..];
      assert argv[1..] == argv[1..last] + [argv[last]];
      calc {
        multiset(order);
        multiset([argv[last]]) + multiset(order[1..]);
        multiset([argv[last]]) + multiset(argv[1..last]);
        multiset(argv[1..]);
      }
    }
  }
}
