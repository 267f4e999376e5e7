/**
 The command line of the duplicate finder: `<program> <folder1> [folder2]
 [--fast]`, with `--fast` allowed anywhere among the arguments. Whether a
 path names an existing directory is the parameter `isDir`.
 */
module Cli {

  const FastFlag: string := "--fast"

  /** The arguments that are not the fast flag, in order: the folders named on the command line. */
  function Folders(args: seq<string>): (ds: seq<string>)
    ensures |ds| <= |args|
    ensures forall i :: 0 <= i < |ds| ==> ds[i] != FastFlag
  {
    if args == [] then []
    else (if args[0] == FastFlag then [] else [args[0]]) + Folders(args[1..])
  }

  /** What the argument loop settles on: the mode and the two folder paths (empty when not given). */
  datatype Config = Config(fast: bool, dir1: string, dir2: string)

  datatype ParseResult =
    | MissingArguments
    | TooManyFolders
    | Parsed(config: Config)

  /**
   The command line as the argument loop reads it (`argv[0]` is the program
   name): no user argument, or a third folder, is a usage error; otherwise
   the first two folders become `dir1` and `dir2`, and `--fast` anywhere
   selects fast mode.
   */
  function ParseArgs(argv: seq<string>): (r: ParseResult)
    ensures r.MissingArguments? <==> |argv| < 2
    ensures r.Parsed? ==> r.config.dir1 != FastFlag && r.config.dir2 != FastFlag
  {
    if |argv| < 2 then MissingArguments
    else
      var ds := Folders(argv[1..]);
      if |ds| > 2 then TooManyFolders
      else Parsed(Config(FastFlag in argv[1..],
                         if |ds| > 0 then ds[0] else "",
                         if |ds| > 1 then ds[1] else ""))
  }

  /** The argument loop of `main`, returning as soon as it meets a third folder. */
  method ParseArguments(argv: seq<string>) returns (r: ParseResult)
    ensures r == ParseArgs(argv)
  {
    if |argv| < 2 {
      return MissingArguments;
    }
    var fastMode := false;
    var dir1, dir2 := "", "";
    var dirCount := 0;
    for i := 1 to |argv|
      invariant dirCount <= 2
      invariant Folders(argv[1..i]) == [dir1, dir2][..dirCount]
      invariant dirCount < 1 ==> dir1 == ""
      invariant dirCount < 2 ==> dir2 == ""
      invariant fastMode == (FastFlag in argv[1..i])
    {
      var arg := argv[i];
      FoldersStep(argv, i);
      if arg == FastFlag {
        fastMode := true;
      } else if dirCount == 0 {
        dir1 := arg;
        dirCount := dirCount + 1;
      } else if dirCount == 1 {
        dir2 := arg;
        dirCount := dirCount + 1;
      } else {
        FoldersGrow(argv, i + 1);
        return TooManyFolders;
      }
    }
    assert argv[1..|argv|] == argv[1..];
    r := Parsed(Config(fastMode, dir1, dir2));
  }

  /** What `main` ends in: a usage error, a folder that fails the check, or the start of a search. */
  datatype Outcome =
    | UsageError
    | InvalidFolder(path: string)
    | Search(fast: bool)

  /** `main`'s return value: 0 only when the search starts, 1 for every error. */
  function ExitCode(o: Outcome): (code: int)
    ensures code == 0 || code == 1
    ensures code == 0 <==> o.Search?
  {
    if o.Search? then 0 else 1
  }

  /**
   What `main` ends in, as a reference definition: a usage error when the
   arguments do not parse; otherwise `dir1` is checked (always, even when it
   is empty), then `dir2` (only when it is not empty), and the search starts
   in the parsed mode.
   */
  function MainOutcome(argv: seq<string>, isDir: string -> bool): (o: Outcome)
    ensures o.UsageError? <==> !ParseArgs(argv).Parsed?
    ensures o.InvalidFolder? ==> !isDir(o.path)
    ensures ExitCode(o) == 0 <==>
              && ParseArgs(argv).Parsed?
              && isDir(ParseArgs(argv).config.dir1)
              && (ParseArgs(argv).config.dir2 == "" || isDir(ParseArgs(argv).config.dir2))
  {
    match ParseArgs(argv)
    case Parsed(c) =>
      if !isDir(c.dir1) then InvalidFolder(c.dir1)
      else if c.dir2 != "" && !isDir(c.dir2) then InvalidFolder(c.dir2)
      else Search(c.fast)
    case _ => UsageError
  }

  /**
   `main`: parse the arguments, then check `dir1` (always, even when it is
   empty) and `dir2` (only when it is not empty). Exit code 0 exactly when
   parsing succeeds and both checks pass; a usage error happens before, and
   independently of, any folder check.
   */
  method Run(argv: seq<string>, isDir: string -> bool) returns (outcome: Outcome)
    ensures outcome == MainOutcome(argv, isDir)
    ensures |argv| < 2 ==> outcome == UsageError
    ensures !ParseArgs(argv).Parsed? ==> outcome == UsageError
    ensures ParseArgs(argv).Parsed? ==>
              var c := ParseArgs(argv).config;
              && (!isDir(c.dir1) ==> outcome == InvalidFolder(c.dir1))
              && (isDir(c.dir1) && c.dir2 != "" && !isDir(c.dir2) ==> outcome == InvalidFolder(c.dir2))
              && (outcome.Search? ==> outcome.fast == c.fast)
    ensures ExitCode(outcome) == 0 <==>
              && ParseArgs(argv).Parsed?
              && isDir(ParseArgs(argv).config.dir1)
              && (ParseArgs(argv).config.dir2 == "" || isDir(ParseArgs(argv).config.dir2))
  {
    var parsed := ParseArguments(argv);
    if !parsed.Parsed? {
      return UsageError;
    }
    var config := parsed.config;
    if !isDir(config.dir1) {
      return InvalidFolder(config.dir1);
    }
    if config.dir2 != "" && !isDir(config.dir2) {
      return InvalidFolder(config.dir2);
    }
    outcome := Search(config.fast);
  }

  /** The folders of a concatenation are the folders of each part. */
  lemma {:induction false} FoldersAppend(xs: seq<string>, ys: seq<string>)
    ensures Folders(xs + ys) == Folders(xs) + Folders(ys)
    decreases |xs|
  {
    if xs == [] {
      assert xs + ys == ys;
    } else {
      assert (xs + ys)[0] == xs[0];
      assert (xs + ys)[1..] == xs[1..] + ys;
      FoldersAppend(xs[1..], ys);
    }
  }

  /** The arguments seen so far name no more folders than the whole command line. */
  lemma {:induction false} FoldersGrow(argv: seq<string>, i: nat)
    requires 1 <= i <= |argv|
    ensures |Folders(argv[1..i])| <= |Folders(argv[1..])|
  {
    assert argv[1..] == argv[1..i] + argv[i..];
    FoldersAppend(argv[1..i], argv[i..]);
  }

  /** One turn of the argument loop: argument `i` is a folder unless it is the fast flag. */
  lemma {:induction false} FoldersStep(argv: seq<string>, i: nat)
    requires 1 <= i < |argv|
    ensures Folders(argv[1..i + 1]) == Folders(argv[1..i]) + (if argv[i] == FastFlag then [] else [argv[i]])
    ensures (FastFlag in argv[1..i + 1]) == (FastFlag in argv[1..i] || argv[i] == FastFlag)
  {
    assert argv[1..i + 1] == argv[1..i] + [argv[i]];
    FoldersAppend(argv[1..i], [argv[i]]);
    FoldersSingle(argv[i]);
  }

  lemma {:induction false} FoldersSingle(x: string)
    ensures Folders([x]) == if x == FastFlag then [] else [x]
  {
    assert [x][1..] == [];
  }

  /** Only flags: no folders. */
  lemma {:induction false} FoldersOfFlags(args: seq<string>)
    requires forall i :: 0 <= i < |args| ==> args[i] == FastFlag
    ensures Folders(args) == []
    decreases |args|
  {
    if args != [] {
      FoldersOfFlags(args[1..]);
    }
  }

  /** A non-flag argument splits the folders around itself. */
  lemma {:induction false} FolderAt(args: seq<string>, i: nat)
    requires i < |args| && args[i] != FastFlag
    ensures Folders(args) == Folders(args[..i]) + [args[i]] + Folders(args[i + 1..])
  {
    var pre, x, post := args[..i], args[i], args[i + 1..];
    assert args == pre + ([x] + post);
    FoldersAppend(pre, [x] + post);
    FoldersAppend([x], post);
    FoldersSingle(x);
  }

  /** `--fast` anywhere selects fast mode and is never taken for a folder. */
  lemma {:induction false} FastFlagNeverFolder(argv: seq<string>)
    requires ParseArgs(argv).Parsed?
    ensures ParseArgs(argv).config.fast <==> exists i :: 1 <= i < |argv| && argv[i] == FastFlag
    ensures ParseArgs(argv).config.dir1 != FastFlag && ParseArgs(argv).config.dir2 != FastFlag
  {
    var args := argv[1..];
    if FastFlag in args {
      var i :| 0 <= i < |args| && args[i] == FastFlag;
      assert argv[i + 1] == FastFlag;
    }
    if exists i :: 1 <= i < |argv| && argv[i] == FastFlag {
      var i :| 1 <= i < |argv| && argv[i] == FastFlag;
      assert args[i - 1] == FastFlag;
    }
  }

  /** The first argument that is not `--fast` becomes `dir1`. */
  lemma {:induction false} FirstFolderIsDir1(argv: seq<string>, i: nat)
    requires 1 <= i < |argv| && argv[i] != FastFlag
    requires forall j :: 1 <= j < i ==> argv[j] == FastFlag
    requires ParseArgs(argv).Parsed?
    ensures ParseArgs(argv).config.dir1 == argv[i]
  {
    var args := argv[1..];
    assert forall l :: 0 <= l < i - 1 ==> args[l] == argv[l + 1];
    SkipFlags(args, i - 1);
    assert args[i - 1..][0] == argv[i];
  }

  /** The second argument that is not `--fast` becomes `dir2`. */
  lemma {:induction false} SecondFolderIsDir2(argv: seq<string>, i: nat, j: nat)
    requires 1 <= i < j < |argv| && argv[i] != FastFlag && argv[j] != FastFlag
    requires forall l :: 1 <= l < j && l != i ==> argv[l] == FastFlag
    requires ParseArgs(argv).Parsed?
    ensures ParseArgs(argv).config.dir2 == argv[j]
  {
    var args := argv[1..];
    assert forall l :: 0 <= l < j - 1 && l != i - 1 ==> args[l] == argv[l + 1];
    FirstTwoFolders(args, i - 1, j - 1);
  }

  /** With only flags before them, the non-flag arguments at `i` and `j` are the first two folders. */
  lemma {:induction false} FirstTwoFolders(args: seq<string>, i: nat, j: nat)
    requires i < j < |args| && args[i] != FastFlag && args[j] != FastFlag
    requires forall l :: 0 <= l < j && l != i ==> args[l] == FastFlag
    ensures |Folders(args)| >= 2 && Folders(args)[0] == args[i] && Folders(args)[1] == args[j]
  {
    SkipFlags(args, i);
    var rest := args[i + 1..];
    assert args[i..][0] == args[i] && args[i..][1..] == rest;
    assert forall l :: 0 <= l < j - i - 1 ==> rest[l] == args[l + i + 1];
    SkipFlags(rest, j - i - 1);
    assert rest[j - i - 1..] == args[j..];
    assert args[j..][0] == args[j];
  }

  /** Leading flags name no folder. */
  lemma {:induction false} SkipFlags(args: seq<string>, k: nat)
    requires k <= |args|
    requires forall l :: 0 <= l < k ==> args[l] == FastFlag
    ensures Folders(args) == Folders(args[k..])
    decreases k
  {
    if k > 0 {
      SkipFlags(args[1..], k - 1);
      assert args[1..][k - 1..] == args[k..];
    }
  }

  /** A third argument that is not `--fast` is a usage error, whatever the folders are. */
  lemma {:induction false} ThirdFolderRejected(argv: seq<string>, i: nat, j: nat, l: nat)
    requires 1 <= i < j < l < |argv|
    requires argv[i] != FastFlag && argv[j] != FastFlag && argv[l] != FastFlag
    ensures ParseArgs(argv) == TooManyFolders
  {
    var args := argv[1..];
    var pre := args[..l - 1];
    var pre' := pre[..j - 1];
    assert pre[j - 1] == argv[j] && pre'[i - 1] == argv[i];
    FolderAt(args, l - 1);
    FolderAt(pre, j - 1);
    FolderAt(pre', i - 1);
    assert |Folders(pre')| >= 1;
    assert |Folders(pre)| >= 2;
    assert |Folders(args)| >= 3;
  }

  /** Only `--fast` flags: parsing succeeds with fast mode and both folders empty. */
  lemma {:induction false} OnlyFlagsLeaveDir1Empty(argv: seq<string>)
    requires |argv| >= 2
    requires forall i :: 1 <= i < |argv| ==> argv[i] == FastFlag
    ensures ParseArgs(argv) == Parsed(Config(true, "", ""))
  {
    FoldersOfFlags(argv[1..]);
    assert argv[1..][0] == FastFlag;
  }

  /**
   Only `--fast` flags: the empty `dir1` goes to the folder check and, since
   the empty path is no existing directory, `main` fails on it with exit code 1.
   */
  lemma {:induction false} OnlyFlagsFailFolderCheck(argv: seq<string>, isDir: string -> bool)
    requires |argv| >= 2
    requires forall i :: 1 <= i < |argv| ==> argv[i] == FastFlag
    requires !isDir("")
    ensures MainOutcome(argv, isDir) == InvalidFolder("")
    ensures ExitCode(MainOutcome(argv, isDir)) == 1
  {
    OnlyFlagsLeaveDir1Empty(argv);
  }
}
