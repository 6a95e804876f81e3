/**
 * The `st_mode` bit layout used by the inspection tools (mylsl, stat, chmod).
 * The nine permission bits, the set-id bits and the sticky bit carry the values
 * POSIX.1-2017 fixes in <sys/stat.h>; the file-type field (S_IFMT and the
 * S_IF* codes) uses the values of Linux and the other common Unix systems.
 */
module StatBits {
  type Mode = bv32

  // File-type field and its codes.
  const S_IFMT: Mode := 0xF000
  const S_IFSOCK: Mode := 0xC000
  const S_IFLNK: Mode := 0xA000
  const S_IFREG: Mode := 0x8000
  const S_IFBLK: Mode := 0x6000
  const S_IFDIR: Mode := 0x4000
  const S_IFCHR: Mode := 0x2000
  const S_IFIFO: Mode := 0x1000

  // Set-id and sticky bits (04000, 02000, 01000).
  const S_ISUID: Mode := 0x800
  const S_ISGID: Mode := 0x400
  const S_ISVTX: Mode := 0x200

  // Permission bits (0400 ... 0001).
  const S_IRUSR: Mode := 0x100
  const S_IWUSR: Mode := 0x80
  const S_IXUSR: Mode := 0x40
  const S_IRGRP: Mode := 0x20
  const S_IWGRP: Mode := 0x10
  const S_IXGRP: Mode := 0x8
  const S_IROTH: Mode := 0x4
  const S_IWOTH: Mode := 0x2
  const S_IXOTH: Mode := 0x1

  /** The nine permission bits, owner read first. */
  const PermissionMask: Mode := 0x1FF

  /** The kinds of file the S_ISxxx tests recognise. */
  datatype FileKind = Regular | Directory | CharSpecial | BlockSpecial | Fifo | Symlink | Socket

  /** The S_IFMT code of each kind. */
  function KindCode(k: FileKind): Mode
  {
    match k
    case Regular => S_IFREG
    case Directory => S_IFDIR
    case CharSpecial => S_IFCHR
    case BlockSpecial => S_IFBLK
    case Fifo => S_IFIFO
    case Symlink => S_IFLNK
    case Socket => S_IFSOCK
  }

  /** S_ISREG, S_ISDIR, ...: the type field of `mode` is the code of `k`. */
  predicate IsKind(mode: Mode, k: FileKind)
  {
    mode & S_IFMT == KindCode(k)
  }

  /** The S_ISxxx tests are mutually exclusive: a mode has at most one type. */
  lemma KindsExclusive(mode: Mode, k1: FileKind, k2: FileKind)
    requires IsKind(mode, k1) && IsKind(mode, k2)
    ensures k1 == k2
  {
  }
}

/** print_permissions from hw04/mylsl.c: the ten-column `ls -l` mode string. */
module LsPermissions {
  import opened StatBits

  /** The permission bits in column order, columns 1 to 9. */
  const ColumnBits: seq<Mode> := [S_IRUSR, S_IWUSR, S_IXUSR, S_IRGRP, S_IWGRP, S_IXGRP, S_IROTH, S_IWOTH, S_IXOTH]

  /** The letter a set bit shows in columns 1 to 9. */
  const ColumnLetters: string := "rwxrwxrwx"

  /** One column: the letter when the bit is set, '-' when it is clear. */
  function Flag(mode: Mode, bit: Mode, letter: char): char
  {
    if mode & bit != 0 then letter else '-'
  }

  /** The text print_permissions writes: ten mode columns and a space. */
  function PermissionString(mode: Mode): (r: string)
    ensures |r| == 11 && r[10] == ' '
  {
    [ if IsKind(mode, Directory) then 'd' else '-',
      Flag(mode, S_IRUSR, 'r'), Flag(mode, S_IWUSR, 'w'), Flag(mode, S_IXUSR, 'x'),
      Flag(mode, S_IRGRP, 'r'), Flag(mode, S_IWGRP, 'w'), Flag(mode, S_IXGRP, 'x'),
      Flag(mode, S_IROTH, 'r'), Flag(mode, S_IWOTH, 'w'), Flag(mode, S_IXOTH, 'x'),
      ' ' ]
  }

  /** Column 0 is 'd' exactly for directories and '-' for every other type. */
  lemma TypeColumn(mode: Mode)
    ensures PermissionString(mode)[0] == (if IsKind(mode, Directory) then 'd' else '-')
    ensures IsKind(mode, Symlink) ==> PermissionString(mode)[0] == '-'
  {
  }

  /** Column k (1..9) shows the k-th letter of "rwxrwxrwx" when the k-th permission bit is set, '-' otherwise. */
  lemma PermissionColumn(mode: Mode, k: int)
    requires 1 <= k <= 9
    ensures PermissionString(mode)[k] == Flag(mode, ColumnBits[k - 1], ColumnLetters[k - 1])
  {
    var s := PermissionString(mode);
    if k == 1 { assert s[1] == Flag(mode, S_IRUSR, 'r'); }
    else if k == 2 { assert s[2] == Flag(mode, S_IWUSR, 'w'); }
    else if k == 3 { assert s[3] == Flag(mode, S_IXUSR, 'x'); }
    else if k == 4 { assert s[4] == Flag(mode, S_IRGRP, 'r'); }
    else if k == 5 { assert s[5] == Flag(mode, S_IWGRP, 'w'); }
    else if k == 6 { assert s[6] == Flag(mode, S_IXGRP, 'x'); }
    else if k == 7 { assert s[7] == Flag(mode, S_IROTH, 'r'); }
    else if k == 8 { assert s[8] == Flag(mode, S_IWOTH, 'w'); }
    else { assert s[9] == Flag(mode, S_IXOTH, 'x'); }
  }

  /** A column letter differs from '-', so equal columns mean equal bits. */
  lemma FlagDeterminesBit(m1: Mode, m2: Mode, bit: Mode, letter: char)
    requires letter != '-' && Flag(m1, bit, letter) == Flag(m2, bit, letter)
    requires bit == 0x100 || bit == 0x80 || bit == 0x40 || bit == 0x20 || bit == 0x10 || bit == 0x8 || bit == 0x4 || bit == 0x2 || bit == 0x1
    ensures m1 & bit == m2 & bit
  {
  }

  /** The column bits are the nine bits of the permission mask, one each. */
  lemma ColumnBitsCoverMask(mode: Mode)
    ensures mode & PermissionMask ==
      (mode & S_IRUSR) | (mode & S_IWUSR) | (mode & S_IXUSR) |
      (mode & S_IRGRP) | (mode & S_IWGRP) | (mode & S_IXGRP) |
      (mode & S_IROTH) | (mode & S_IWOTH) | (mode & S_IXOTH)
  {
  }

  /**
   * The string depends only on the directory test and the nine permission
   * bits: set-user-ID, set-group-ID and sticky bits are never shown.
   */
  lemma OnlyTypeAndPermissionBitsShown(m1: Mode, m2: Mode)
    requires IsKind(m1, Directory) == IsKind(m2, Directory)
    requires m1 & PermissionMask == m2 & PermissionMask
    ensures PermissionString(m1) == PermissionString(m2)
  {
    forall bit: Mode | bit in ColumnBits
      ensures (m1 & bit != 0) == (m2 & bit != 0)
    {
      assert bit & PermissionMask == bit;
      assert m1 & bit == (m1 & PermissionMask) & bit;
      assert m2 & bit == (m2 & PermissionMask) & bit;
    }
  }

  /** Distinct permission-bit patterns give distinct strings. */
  lemma PermissionStringInjective(m1: Mode, m2: Mode)
    requires PermissionString(m1) == PermissionString(m2)
    ensures m1 & PermissionMask == m2 & PermissionMask
    ensures IsKind(m1, Directory) == IsKind(m2, Directory)
  {
    var s1, s2 := PermissionString(m1), PermissionString(m2);
    assert s1[0] == s2[0];
    assert s1[1] == s2[1]; FlagDeterminesBit(m1, m2, S_IRUSR, 'r');
    assert s1[2] == s2[2]; FlagDeterminesBit(m1, m2, S_IWUSR, 'w');
    assert s1[3] == s2[3]; FlagDeterminesBit(m1, m2, S_IXUSR, 'x');
    assert s1[4] == s2[4]; FlagDeterminesBit(m1, m2, S_IRGRP, 'r');
    assert s1[5] == s2[5]; FlagDeterminesBit(m1, m2, S_IWGRP, 'w');
    assert s1[6] == s2[6]; FlagDeterminesBit(m1, m2, S_IXGRP, 'x');
    assert s1[7] == s2[7]; FlagDeterminesBit(m1, m2, S_IROTH, 'r');
    assert s1[8] == s2[8]; FlagDeterminesBit(m1, m2, S_IWOTH, 'w');
    assert s1[9] == s2[9]; FlagDeterminesBit(m1, m2, S_IXOTH, 'x');
    ColumnBitsCoverMask(m1);
    ColumnBitsCoverMask(m2);
  }
}

/** The type classification chain of hw04/stat.c. */
module StatType {
  import opened StatBits
  import opened Wrappers

  /**
   * What the chain assigns to `mode`: a name, or nothing when no test
   * matched (`mode` then keeps its earlier value).
   */
  datatype Classification = Named(name: string) | Unassigned

  /** The name printed for each file kind. */
  function KindName(k: FileKind): string
  {
    match k
    case Regular => "regular"
    case Directory => "directory"
    case CharSpecial => "character special"
    case BlockSpecial => "block special"
    case Fifo => "FIFO"
    case Symlink => "symbolic link"
    case Socket => "socket"
  }

  /** The if/else chain, tests in the source's order; the first match wins. */
  function Classify(mode: Mode): Classification
  {
    if IsKind(mode, Regular) then Named("regular")
    else if IsKind(mode, Directory) then Named("directory")
    else if IsKind(mode, CharSpecial) then Named("character special")
    else if IsKind(mode, BlockSpecial) then Named("block special")
    else if IsKind(mode, Fifo) then Named("FIFO")
    else if IsKind(mode, Symlink) then Named("symbolic link")
    else if IsKind(mode, Socket) then Named("socket")
    else Unassigned
  }

  /**
   * Classify agrees with the kind table: a mode of kind k is named
   * KindName(k), and a mode of no kind is left unassigned.
   */
  lemma ClassifyByKind(mode: Mode, k: FileKind)
    ensures IsKind(mode, k) <==> Classify(mode) == Named(KindName(k))
  {
    match k
    case Regular =>
    case Directory =>
    case CharSpecial =>
    case BlockSpecial =>
    case Fifo =>
    case Symlink =>
    case Socket =>
  }

  lemma UnassignedIffNoKind(mode: Mode)
    ensures Classify(mode) == Unassigned <==> forall k: FileKind :: !IsKind(mode, k)
  {
    if Classify(mode) == Unassigned {
      forall k: FileKind ensures !IsKind(mode, k) {
        ClassifyByKind(mode, k);
      }
    }
  }

  /** What the loop reports for one argument. */
  datatype Report = LstatFailed | Typed(c: Classification)

  /** What the chain assigns for one argument: nothing when lstat failed. */
  function Assigned(arg: Option<Mode>): Classification
  {
    match arg
    case None => Unassigned
    case Some(m) => Classify(m)
  }

  /** The assignments made for each argument, in order. */
  function Assignments(lstats: seq<Option<Mode>>): (cs: seq<Classification>)
    ensures |cs| == |lstats|
  {
    if |lstats| == 0 then [] else Assignments(lstats[..|lstats| - 1]) + [Assigned(lstats[|lstats| - 1])]
  }

  /** Assignments holds each argument's own assignment at its index. */
  lemma {:induction false} AssignmentsAt(lstats: seq<Option<Mode>>, i: int)
    requires 0 <= i < |lstats|
    ensures Assignments(lstats)[i] == Assigned(lstats[i])
  {
    var last := |lstats| - 1;
    if i < last {
      AssignmentsAt(lstats[..last], i);
    }
  }

  /**
   * What the single `mode` variable holds after a run of assignments: the
   * latest name, or Unassigned while nothing has been assigned.
   */
  function Latest(cs: seq<Classification>): Classification
  {
    if |cs| == 0 then Unassigned
    else if cs[|cs| - 1].Named? then cs[|cs| - 1]
    else Latest(cs[..|cs| - 1])
  }

  /**
   * Latest is the most recent name: Unassigned exactly when nothing was
   * assigned, and otherwise a name assigned at some index with none after it.
   */
  lemma {:induction false} LatestIsLastNamed(cs: seq<Classification>)
    ensures Latest(cs) == Unassigned <==> forall i :: 0 <= i < |cs| ==> cs[i] == Unassigned
    ensures Latest(cs).Named? ==>
      exists i :: 0 <= i < |cs| && cs[i] == Latest(cs) &&
        forall j :: i < j < |cs| ==> cs[j] == Unassigned
  {
    if |cs| > 0 {
      var last := |cs| - 1;
      var init := cs[..last];
      LatestIsLastNamed(init);
      assert forall i :: 0 <= i < last ==> cs[i] == init[i];
      if cs[last].Named? {
        assert cs[last] == Latest(cs);
      } else if Latest(init).Named? {
        var i :| 0 <= i < |init| && init[i] == Latest(init) &&
          forall j :: i < j < |init| ==> init[j] == Unassigned;
        assert cs[i] == Latest(cs);
      }
    }
  }

  /**
   * The name printed for a successfully lstat'ed argument: its own type
   * name when the chain matched, otherwise what `mode` held before it.
   */
  lemma ReportedName(lstats: seq<Option<Mode>>, i: int)
    requires 0 <= i < |lstats| && lstats[i].Some?
    ensures Classify(lstats[i].value).Named? ==>
      Latest(Assignments(lstats[..i + 1])) == Classify(lstats[i].value)
    ensures Classify(lstats[i].value) == Unassigned ==>
      Latest(Assignments(lstats[..i + 1])) == Latest(Assignments(lstats[..i]))
  {
    assert lstats[..i + 1][..i] == lstats[..i];
  }

  /**
   * A regular file followed by a mode of no known type: the second argument
   * prints "regular" again, the name the first one left in `mode`.
   */
  lemma CarriedAcrossArguments()
    ensures Classify(0) == Unassigned
    ensures Latest(Assignments([Some(0x8000)])) == Named("regular")
  {
    assert [Some(0x8000 as Mode)][..0] == [];
  }

  /**
   * The argument loop of stat.c: `lstats[i]` is the lstat result for the
   * i-th argument (None when lstat failed). A failure skips the argument
   * with no classification. Every other argument prints its type name, and
   * when its mode matches no test it prints whatever `mode` still holds
   * from an earlier argument.
   */
  method DescribeAll(lstats: seq<Option<Mode>>) returns (reports: seq<Report>)
    ensures |reports| == |lstats|
    ensures forall i :: 0 <= i < |lstats| ==>
      (reports[i] == LstatFailed <==> lstats[i] == None)
    ensures forall i :: 0 <= i < |lstats| && lstats[i].Some? ==>
      reports[i] == Typed(Latest(Assignments(lstats[..i + 1])))
  {
    reports := [];
    var mode := Unassigned;
    var i := 0;
    while i < |lstats|
      invariant 0 <= i <= |lstats| && |reports| == i
      invariant mode == Latest(Assignments(lstats[..i]))
      invariant forall j :: 0 <= j < i ==> (reports[j] == LstatFailed <==> lstats[j] == None)
      invariant forall j :: 0 <= j < i && lstats[j].Some? ==>
        reports[j] == Typed(Latest(Assignments(lstats[..j + 1])))
    {
      AssignmentsSnoc(lstats, i);
      ghost var before := reports;
      var report;
      report, mode := DescribeOne(lstats[i], mode);
      reports := reports + [report];
      forall j | 0 <= j < i + 1
        ensures (reports[j] == LstatFailed <==> lstats[j] == None)
        ensures lstats[j].Some? ==> reports[j] == Typed(Latest(Assignments(lstats[..j + 1])))
      {
        if j < i {
          assert reports[j] == before[j];
        }
      }
      i := i + 1;
    }
  }

  /**
   * One pass of the argument loop: a failed lstat reports the failure and
   * leaves `mode` alone; otherwise the chain runs, `mode` takes its name if
   * it matched, and `mode` is printed.
   */
  method DescribeOne(arg: Option<Mode>, mode: Classification) returns (report: Report, mode': Classification)
    ensures report == LstatFailed <==> arg == None
    ensures mode' == if Assigned(arg).Named? then Assigned(arg) else mode
    ensures arg.Some? ==> report == Typed(mode')
  {
    mode' := mode;
    match arg {
      case None =>
        report := LstatFailed;
      case Some(m) =>
        var c := Classify(m);
        if c.Named? {
          mode' := c;
        }
        report := Typed(mode');
    }
  }

  /** The assignments of one more argument extend those before it. */
  lemma AssignmentsSnoc(lstats: seq<Option<Mode>>, i: int)
    requires 0 <= i < |lstats|
    ensures Assignments(lstats[..i + 1]) == Assignments(lstats[..i]) + [Assigned(lstats[i])]
    ensures var cs := Assignments(lstats[..i + 1]);
      Latest(cs) == if cs[i].Named? then cs[i] else Latest(Assignments(lstats[..i]))
  {
    assert lstats[..i + 1][..i] == lstats[..i];
  }
}

/** The two new-mode computations of hw04/chmod.c. */
module ChmodModes {
  import opened StatBits
  import opened Wrappers

  /** bar's new mode: group-write cleared, set-user-ID set. */
  function BarMode(prev: Mode): (m: Mode)
    ensures m & S_IWGRP == 0
    ensures m & S_ISUID == S_ISUID
  {
    (prev & !S_IWGRP) | S_ISUID
  }

  /** Every bit other than group-write and set-user-ID keeps its old value. */
  lemma BarModeKeepsOtherBits(prev: Mode, bit: Mode)
    requires bit & (S_IWGRP | S_ISUID) == 0
    ensures BarMode(prev) & bit == prev & bit
  {
  }

  /** In particular owner-execute is not removed (the header says it would be). */
  lemma BarModeKeepsOwnerExecute(prev: Mode)
    ensures BarMode(prev) & S_IXUSR == prev & S_IXUSR
  {
    BarModeKeepsOtherBits(prev, S_IXUSR);
  }

  /** foo's new mode: owner read/write, group read, other read. */
  const FooMode: Mode := S_IRUSR | S_IWUSR | S_IRGRP | S_IROTH

  lemma FooModeIs0644()
    ensures FooMode == 0x1A4
  {
  }

  /** One chmod call the program makes. */
  datatype ChmodCall = ChmodCall(path: string, mode: Mode)

  /** How the program ends: the chmod calls it made and its exit status. */
  datatype Run = Run(calls: seq<ChmodCall>, status: int)

  /**
   * main of chmod.c with the system calls' results as inputs: `barStat` is
   * stat("bar") (None on failure), `barOk`/`fooOk` whether each chmod succeeds.
   */
  function ChmodProgram(barStat: Option<Mode>, barOk: bool, fooOk: bool): (r: Run)
    ensures r.status == 0 <==> barStat.Some? && barOk && fooOk
    ensures barStat == None ==> r.calls == []
    ensures forall c :: c in r.calls && c.path == "bar" ==> barStat.Some? && c.mode == BarMode(barStat.value)
    ensures forall c :: c in r.calls && c.path == "foo" ==> barStat.Some? && barOk && c.mode == FooMode
    ensures barStat.Some? && barOk ==> |r.calls| == 2 && r.calls[1].path == "foo"
  {
    match barStat
    case None => Run([], 1)
    case Some(m) =>
      var bar := ChmodCall("bar", BarMode(m));
      if !barOk then Run([bar], 1)
      else Run([bar, ChmodCall("foo", FooMode)], if fooOk then 0 else 1)
  }
}
