/** The command-line front end of main.c: argv is mapped to one engine operation, or to a
    usage or validation error, before anything runs. Numbers are read with strtol(s, &end, 10)
    and narrowed to a C int, and a number is accepted when end reaches the terminating NUL. */
module Cli {
  import opened Wrappers
  import CStrings
  import Decimal
  import AutoDelete

  datatype Command = Delete(path: string, retention: int) | List | Restore(id: int) | Purge

  /** What main does with its arguments: print a usage or error message and exit with 1, or
      run one command and exit with 0. */
  datatype Dispatch =
    | ShowUsage
    | InitFailed
    | DeleteUsage
    | RetentionNotNumber
    | RestoreUsage
    | IdNotNumber
    | UnknownCommand(name: string)
    | Run(cmd: Command)

  /** The retention main.c uses when none is given (it writes the literal 60). */
  const DefaultRetention := 60

  const LongMin := -0x8000_0000_0000_0000
  const LongMax := 0x7FFF_FFFF_FFFF_FFFF

  predicate IsInt32(n: int) {
    -0x8000_0000 <= n < 0x8000_0000
  }

  /** isspace in the C locale. */
  predicate IsSpace(c: char) {
    c == ' ' || c == '\t' || c == '\n' || c == '\U{000B}' || c == '\U{000C}' || c == '\r'
  }

  /** The first index at or after i that holds no white space. */
  function SpaceEnd(s: string, i: nat): (k: nat)
    requires i <= |s|
    ensures i <= k <= |s|
    ensures forall m :: i <= m < k ==> IsSpace(s[m])
    ensures k < |s| ==> !IsSpace(s[k])
    decreases |s| - i
  {
    if i < |s| && IsSpace(s[i]) then SpaceEnd(s, i + 1) else i
  }

  /** The index after the optional sign at i. */
  function SignEnd(s: string, i: nat): (j: nat)
    requires i <= |s|
    ensures j == i || (i < |s| && j == i + 1 && (s[i] == '+' || s[i] == '-'))
    ensures j <= |s|
  {
    if i < |s| && (s[i] == '+' || s[i] == '-') then i + 1 else i
  }

  /** The first index at or after j that holds no decimal digit. */
  function DigitsEnd(s: string, j: nat): (k: nat)
    requires j <= |s|
    ensures j <= k <= |s|
    ensures Decimal.AllDigits(s[j..k])
    ensures k < |s| ==> !Decimal.IsDigit(s[k])
    decreases |s| - j
  {
    if j < |s| && Decimal.IsDigit(s[j]) then DigitsEnd(s, j + 1) else j
  }

  /** strtol's saturation to the range of a 64-bit long. */
  function ClampLong(n: int): (r: int)
    ensures LongMin <= r <= LongMax
    ensures LongMin <= n <= LongMax ==> r == n
    ensures n < LongMin ==> r == LongMin
    ensures n > LongMax ==> r == LongMax
  {
    if n < LongMin then LongMin else if n > LongMax then LongMax else n
  }

  /** strtol(s, &end, 10) on a NUL-free string: the value and the index end points at. With
      no digits, end is the start of the string and the value 0. */
  function StrToL(s: string): (r: (int, nat))
    ensures r.1 <= |s|
    ensures r.1 == 0 ==> r.0 == 0
    ensures LongMin <= r.0 <= LongMax
  {
    var i := SpaceEnd(s, 0);
    var j := SignEnd(s, i);
    var k := DigitsEnd(s, j);
    if k == j then (0, 0)
    else
      (ClampLong(Signed(j > i && s[i] == '-', s[j..k])), k)
  }

  /** The shape strtol consumes completely: white space, an optional sign, and at least one
      digit running to the end. */
  predicate IsNumeral(s: string) {
    var j := SignEnd(s, SpaceEnd(s, 0));
    j < |s| && Decimal.AllDigits(s[j..])
  }

  /** `(int)strtol(s, &end, 10)` followed by the check `*end != '\0'`. */
  function ParseInt(s: string): (r: Option<int>)
    ensures r.Some? ==> IsInt32(r.value)
  {
    var (value, end) := StrToL(s);
    if end == |s| then Some(Decimal.Wrap32(value)) else None
  }

  /** A number is accepted exactly when it is a complete numeral, or when the argument is empty
      (end then equals the start, which is the NUL). */
  lemma ParseIntAccepts(s: string)
    ensures ParseInt(s).Some? <==> s == [] || IsNumeral(s)
  {
    var i := SpaceEnd(s, 0);
    var j := SignEnd(s, i);
    var k := DigitsEnd(s, j);
    if k == |s| && k > j {
      assert s[j..] == s[j..k];
    }
  }

  /** The characters of a C string argument: everything before its first NUL. */
  function Arg(argv: seq<string>, i: nat): string
    requires i < |argv|
  {
    CStrings.UpToNul(argv[i])
  }

  /** main's dispatch. `initOk` is what init_system returned (it needs $HOME, creates the
      recycle bin and the database). */
  function Main(argv: seq<string>, initOk: bool): (d: Dispatch)
    ensures |argv| < 2 ==> d == ShowUsage
    ensures |argv| >= 2 && !initOk ==> d == InitFailed
    ensures d.Run? ==> initOk && |argv| >= 2
    ensures d.Run? && d.cmd.Delete? ==>
              && |argv| >= 3 && Arg(argv, 1) == "delete" && d.cmd.path == Arg(argv, 2)
              && (|argv| == 3 ==> d.cmd.retention == DefaultRetention)
              && (|argv| >= 4 ==> ParseInt(Arg(argv, 3)) == Some(d.cmd.retention))
    ensures d.Run? && d.cmd.Restore? ==>
              |argv| >= 3 && Arg(argv, 1) == "restore" && ParseInt(Arg(argv, 2)) == Some(d.cmd.id)
    ensures d.Run? && d.cmd.List? ==> Arg(argv, 1) == "list"
    ensures d.Run? && d.cmd.Purge? ==> Arg(argv, 1) == "purge"
    ensures d == RetentionNotNumber ==> |argv| >= 4 && ParseInt(Arg(argv, 3)).None?
    ensures d == IdNotNumber ==> |argv| >= 3 && ParseInt(Arg(argv, 2)).None?
    ensures d.UnknownCommand? ==> d.name == Arg(argv, 1) && d.name !in {"delete", "list", "restore", "purge"}
    ensures |argv| >= 2 && initOk && Arg(argv, 1) == "delete" ==>
              && (|argv| == 2 ==> d == DeleteUsage)
              && (|argv| == 3 ==> d == Run(Delete(Arg(argv, 2), DefaultRetention)))
              && (|argv| >= 4 && ParseInt(Arg(argv, 3)).Some? ==>
                    d == Run(Delete(Arg(argv, 2), ParseInt(Arg(argv, 3)).value)))
              && (|argv| >= 4 && ParseInt(Arg(argv, 3)).None? ==> d == RetentionNotNumber)
    ensures |argv| >= 2 && initOk && Arg(argv, 1) == "restore" ==>
              && (|argv| == 2 ==> d == RestoreUsage)
              && (|argv| >= 3 && ParseInt(Arg(argv, 2)).Some? ==> d == Run(Restore(ParseInt(Arg(argv, 2)).value)))
              && (|argv| >= 3 && ParseInt(Arg(argv, 2)).None? ==> d == IdNotNumber)
    ensures |argv| >= 2 && initOk ==> (d == Run(List) <==> Arg(argv, 1) == "list")
    ensures |argv| >= 2 && initOk ==> (d == Run(Purge) <==> Arg(argv, 1) == "purge")
    ensures |argv| >= 2 && initOk && Arg(argv, 1) !in {"delete", "list", "restore", "purge"} ==>
              d == UnknownCommand(Arg(argv, 1))
  {
    if |argv| < 2 then ShowUsage
    else if !initOk then InitFailed
    else
      var command := Arg(argv, 1);
      if command == "delete" then
        if |argv| < 3 then DeleteUsage
        else if |argv| >= 4 then
          match ParseInt(Arg(argv, 3))
          case None => RetentionNotNumber
          case Some(retention) => Run(Delete(Arg(argv, 2), retention))
        else Run(Delete(Arg(argv, 2), DefaultRetention))
      else if command == "list" then Run(List)
      else if command == "restore" then
        if |argv| < 3 then RestoreUsage
        else
          match ParseInt(Arg(argv, 2))
          case None => IdNotNumber
          case Some(id) => Run(Restore(id))
      else if command == "purge" then Run(Purge)
      else UnknownCommand(command)
  }

  /** main returns 0 after any command ran, whatever the engine reported, and 1 otherwise. */
  function ExitCode(d: Dispatch): (code: int)
    ensures code == 0 <==> d.Run?
    ensures code == 0 || code == 1
  {
    if d.Run? then 0 else 1
  }

  /** An argument vector that asks for cmd. */
  function Render(cmd: Command): seq<string> {
    match cmd
    case Delete(path, retention) => ["auto_delete", "delete", path, Decimal.Show(retention)]
    case List => ["auto_delete", "list"]
    case Restore(id) => ["auto_delete", "restore", Decimal.Show(id)]
    case Purge => ["auto_delete", "purge"]
  }

  /** The commands main can produce: C-string paths and C int numbers. */
  predicate Expressible(cmd: Command) {
    match cmd
    case Delete(path, retention) => '\0' !in path && IsInt32(retention)
    case Restore(id) => IsInt32(id)
    case _ => true
  }

  lemma NulFreeArg(s: string)
    requires '\0' !in s
    ensures CStrings.UpToNul(s) == s
  {
  }

  /** A printed C int parses back to itself. */
  lemma ParseShow(n: int)
    requires IsInt32(n)
    ensures ParseInt(Decimal.Show(n)) == Some(n)
  {
    var s := Decimal.Show(n);
    assert SpaceEnd(s, 0) == 0;
    var j := SignEnd(s, 0);
    assert j == (if n < 0 then 1 else 0);
    var m := if n < 0 then -n else n;
    assert s[j..] == Decimal.ShowNat(m);
    assert DigitsEnd(s, j) == |s|;
    Decimal.ValueOfShowNat(m);
    assert s[j..|s|] == s[j..];
  }

  /** A printed C int survives main's argument handling unchanged. */
  lemma NumberArg(n: int)
    requires IsInt32(n)
    ensures CStrings.UpToNul(Decimal.Show(n)) == Decimal.Show(n)
    ensures ParseInt(CStrings.UpToNul(Decimal.Show(n))) == Some(n)
  {
    NulFreeArg(Decimal.Show(n));
    ParseShow(n);
  }

  /** Every command main can run is reached by its rendered argument vector. */
  lemma RenderRoundTrip(cmd: Command)
    requires Expressible(cmd)
    ensures Main(Render(cmd), true) == Run(cmd)
  {
    var argv := Render(cmd);
    match cmd
    case Delete(path, retention) =>
      assert Arg(argv, 1) == "delete" by {
        NulFreeArg("delete");
      }
      assert Arg(argv, 2) == path by {
        NulFreeArg(path);
      }
      assert ParseInt(Arg(argv, 3)) == Some(retention) by {
        NumberArg(retention);
      }
    case Restore(id) =>
      assert Arg(argv, 1) == "restore" by {
        NulFreeArg("restore");
      }
      assert ParseInt(Arg(argv, 2)) == Some(id) by {
        NumberArg(id);
      }
    case List =>
      assert Arg(argv, 1) == "list" by {
        NulFreeArg("list");
      }
    case Purge =>
      assert Arg(argv, 1) == "purge" by {
        NulFreeArg("purge");
      }
  }

  /** Without a retention argument, delete uses DEFAULT_RETENTION_SECS, whatever the program
      was called. */
  lemma DeleteDefaultsRetention(prog: string, path: string)
    requires '\0' !in path
    ensures Main([prog, "delete", path], true) == Run(Delete(path, AutoDelete.DefaultRetentionSecs))
  {
    NulFreeArg("delete");
    NulFreeArg(path);
  }

  /** list and purge ignore any further arguments, whatever the program was called. */
  lemma ExtraArgumentsIgnored(prog: string, extra: seq<string>)
    ensures Main([prog, "list"] + extra, true) == Run(List)
    ensures Main([prog, "purge"] + extra, true) == Run(Purge)
  {
    NulFreeArg("list");
    NulFreeArg("purge");
    assert ([prog, "list"] + extra)[1] == "list";
    assert ([prog, "purge"] + extra)[1] == "purge";
  }

  /** A numeral argument in any spelling strtol reads completely (leading white space, a sign,
      leading zeros) is its saturated value cut to a C int. */
  lemma ParseNumeral(w: string, sign: string, d: string)
    requires forall i :: 0 <= i < |w| ==> IsSpace(w[i])
    requires sign == "" || sign == "+" || sign == "-"
    requires d != [] && Decimal.AllDigits(d)
    ensures CStrings.UpToNul(w + sign + d) == w + sign + d
    ensures ParseInt(w + sign + d) == Some(Decimal.Wrap32(ClampLong(Signed(sign == "-", d))))
  {
    var s := w + sign + d;
    forall i | 0 <= i < |s|
      ensures s[i] != '\0'
    {
      if i < |w| {
        assert s[i] == w[i];
      } else if i < |w| + |sign| {
        assert s[i] == sign[i - |w|];
      } else {
        assert s[i] == d[i - |w| - |sign|];
      }
    }
    NulFreeArg(s);
    StrToLReadsNumeral(w, sign, d, []);
    assert s + [] == s;
  }

  /** delete with a numeral retention runs the engine with the value strtol reads, whatever
      the program was called and whatever arguments follow. */
  lemma DeleteNumeral(prog: string, path: string, w: string, sign: string, d: string, extra: seq<string>)
    requires '\0' !in path
    requires forall i :: 0 <= i < |w| ==> IsSpace(w[i])
    requires sign == "" || sign == "+" || sign == "-"
    requires d != [] && Decimal.AllDigits(d)
    ensures Main([prog, "delete", path, w + sign + d] + extra, true)
            == Run(Delete(path, Decimal.Wrap32(ClampLong(Signed(sign == "-", d)))))
  {
    var argv := [prog, "delete", path, w + sign + d] + extra;
    assert Arg(argv, 1) == "delete" by {
      NulFreeArg("delete");
    }
    assert Arg(argv, 2) == path by {
      NulFreeArg(path);
    }
    assert ParseInt(Arg(argv, 3)) == Some(Decimal.Wrap32(ClampLong(Signed(sign == "-", d)))) by {
      assert argv[3] == w + sign + d;
      ParseNumeral(w, sign, d);
    }
  }

  /** restore with a numeral id runs the engine with the value strtol reads, whatever the
      program was called and whatever arguments follow. */
  lemma RestoreNumeral(prog: string, w: string, sign: string, d: string, extra: seq<string>)
    requires forall i :: 0 <= i < |w| ==> IsSpace(w[i])
    requires sign == "" || sign == "+" || sign == "-"
    requires d != [] && Decimal.AllDigits(d)
    ensures Main([prog, "restore", w + sign + d] + extra, true)
            == Run(Restore(Decimal.Wrap32(ClampLong(Signed(sign == "-", d)))))
  {
    var argv := [prog, "restore", w + sign + d] + extra;
    assert Arg(argv, 1) == "restore" by {
      NulFreeArg("restore");
    }
    assert ParseInt(Arg(argv, 2)) == Some(Decimal.Wrap32(ClampLong(Signed(sign == "-", d)))) by {
      assert argv[2] == w + sign + d;
      ParseNumeral(w, sign, d);
    }
  }


  /** A plus sign is accepted: "+5" restores row 5. */
  lemma RestorePlusSign(prog: string, arg: string)
    requires arg == "+5"
    ensures Main([prog, "restore", arg], true) == Run(Restore(5))
  {
    var none: seq<string> := [];
    var w, sign, d := "", "+", "5";
    SmallSigned(false, d, 5);
    assert w + sign + d == arg;
    RestoreNumeral(prog, w, sign, d, none);
    assert [prog, "restore", arg] + none == [prog, "restore", arg];
  }

  /** Leading white space is skipped: " 5" restores row 5. */
  lemma RestoreLeadingSpace(prog: string, arg: string)
    requires arg == " 5"
    ensures Main([prog, "restore", arg], true) == Run(Restore(5))
  {
    var none: seq<string> := [];
    var w, sign, d := " ", "", "5";
    SmallSigned(false, d, 5);
    assert IsSpace(w[0]);
    assert w + sign + d == arg;
    RestoreNumeral(prog, w, sign, d, none);
    assert [prog, "restore", arg] + none == [prog, "restore", arg];
  }

  /** Leading zeros are read in base 10, not octal: "007" restores row 7. */
  lemma RestoreLeadingZeros(prog: string, arg: string)
    requires arg == "007"
    ensures Main([prog, "restore", arg], true) == Run(Restore(7))
  {
    var none: seq<string> := [];
    var w, sign, d := "", "", "007";
    assert Decimal.Value(d) == 7 by {
      assert d[..2] == "00" && d[..2][..1] == "0" && "0"[..0] == [];
      assert Decimal.Value("0") == 0;
      assert Decimal.Value("00") == 0;
    }
    SmallSigned(false, d, 7);
    assert w + sign + d == arg;
    RestoreNumeral(prog, w, sign, d, none);
    assert [prog, "restore", arg] + none == [prog, "restore", arg];
  }

  /** A minus sign is accepted too: "-3" deletes with retention -3. */
  lemma DeleteNegativeRetention(prog: string, path: string, minus: string)
    requires '\0' !in path && minus == "-3"
    ensures Main([prog, "delete", path, minus], true) == Run(Delete(path, -3))
  {
    var none: seq<string> := [];
    var w, sign, d := "", "-", "3";
    SmallSigned(true, d, 3);
    assert w + sign + d == minus;
    DeleteNumeral(prog, path, w, sign, d, none);
    assert [prog, "delete", path, minus] + none == [prog, "delete", path, minus];
  }

  /** A numeral of small value keeps its value through the clamp to long and the cut to int. */
  lemma SmallSigned(negative: bool, d: string, v: nat)
    requires Decimal.AllDigits(d) && Decimal.Value(d) == v && v < 0x8000_0000
    ensures Decimal.Wrap32(ClampLong(Signed(negative, d))) == if negative then -(v as int) else v
  {
  }


  /** What the end check lets through and what it stops: an empty id is id 0, leading white
      space is skipped, and trailing characters are refused. */
  lemma NumberQuirks()
    ensures ParseInt("") == Some(0)
    ensures ParseInt(" 7") == Some(7)
    ensures ParseInt("12abc") == None
  {
    assert SpaceEnd(" 7", 0) == 1;
    assert DigitsEnd(" 7", 1) == 2;
    assert " 7"[1..2] == "7";
    assert DigitsEnd("12abc", 0) == 2;
  }

  /** A plain run of digits that fits a long is cut to 32 bits: "4294967297" reads as 1. */
  lemma DigitsWrap(s: string)
    requires s != [] && Decimal.AllDigits(s) && Decimal.Value(s) <= LongMax
    ensures ParseInt(s) == Some(Decimal.Wrap32(Decimal.Value(s)))
    ensures Decimal.Value(s) == 0x1_0000_0001 ==> ParseInt(s) == Some(1)
  {
    var v := Decimal.Value(s);
    DigitsRun(s);
    assert ClampLong(v) == v;
    assert ParseInt(s) == Some(Decimal.Wrap32(v));
    Decimal.Wrap32Example();
  }

  /** strtol on a bare run of digits reads all of it. */
  lemma DigitsRun(s: string)
    requires s != [] && Decimal.AllDigits(s)
    ensures SpaceEnd(s, 0) == 0 && SignEnd(s, 0) == 0 && DigitsEnd(s, 0) == |s|
    ensures StrToL(s) == (ClampLong(Decimal.Value(s)), |s|)
  {
    assert DigitsEnd(s, 0) == |s|;
    assert s[0..|s|] == s;
  }

  /** strtol reads leading white space, an optional sign and a run of digits, and stops at the
      first character after them that is not a digit: the value is the signed run, saturated
      to a long, and end points just past the digits. */
  lemma StrToLReadsNumeral(w: string, sign: string, d: string, rest: string)
    requires forall i :: 0 <= i < |w| ==> IsSpace(w[i])
    requires sign == "" || sign == "+" || sign == "-"
    requires d != [] && Decimal.AllDigits(d)
    requires rest == [] || !Decimal.IsDigit(rest[0])
    ensures StrToL(w + sign + d + rest) == (ClampLong(Signed(sign == "-", d)), |w| + |sign| + |d|)
  {
    NumeralEnds(w, sign, d, rest);
    StrToLAt(w + sign + d + rest, |w|, |w| + |sign|, |w| + |sign| + |d|, d, sign == "-");
  }

  /** Where white space, sign and digits end in w + sign + d + rest. */
  lemma NumeralEnds(w: string, sign: string, d: string, rest: string)
    requires forall i :: 0 <= i < |w| ==> IsSpace(w[i])
    requires sign == "" || sign == "+" || sign == "-"
    requires d != [] && Decimal.AllDigits(d)
    requires rest == [] || !Decimal.IsDigit(rest[0])
    ensures var s, i, j, k := w + sign + d + rest, |w|, |w| + |sign|, |w| + |sign| + |d|;
            SpaceEnd(s, 0) == i && SignEnd(s, i) == j && DigitsEnd(s, j) == k && s[j..k] == d
            && ((j > i && s[i] == '-') == (sign == "-"))
  {
    var s := w + sign + d + rest;
    var i, j, k := |w|, |w| + |sign|, |w| + |sign| + |d|;
    assert s[i] == if sign == "" then d[0] else sign[0];
    assert SpaceEnd(s, 0) == i by {
      forall m | 0 <= m < i
        ensures IsSpace(s[m])
      {
        assert s[m] == w[m];
      }
      SpacesTo(s, 0, i);
    }
    assert SignEnd(s, i) == j by {
      if sign != "" {
        assert s[j] == d[0];
      }
    }
    assert s[j..k] == d && DigitsEnd(s, j) == k by {
      assert s[j..k] == d;
      assert k < |s| ==> s[k] == rest[0];
      DigitsTo(s, j, k);
    }
  }


  /** StrToL once the ends of the white space, the sign and the digits are known. */
  lemma StrToLAt(s: string, i: nat, j: nat, k: nat, d: string, negative: bool)
    requires SpaceEnd(s, 0) == i && i <= |s| && SignEnd(s, i) == j && j <= |s| && DigitsEnd(s, j) == k && j < k
    requires s[j..k] == d && negative == (j > i && s[i] == '-')
    ensures Decimal.AllDigits(d)
    ensures StrToL(s) == (ClampLong(Signed(negative, d)), k)
  {
  }

  /** The number a run of digits denotes, negated when a minus sign precedes it. */
  function Signed(negative: bool, d: string): (r: int)
    requires Decimal.AllDigits(d)
    ensures r == 0 <==> Decimal.Value(d) == 0
    ensures negative ==> r <= 0
    ensures !negative ==> r >= 0
  {
    if negative then -(Decimal.Value(d) as int) else Decimal.Value(d)
  }

  /** SpaceEnd from i stops at k when s[i..k] is white space and s[k] is not. */
  lemma {:induction false} SpacesTo(s: string, i: nat, k: nat)
    requires i <= k < |s| && !IsSpace(s[k])
    requires forall m :: i <= m < k ==> IsSpace(s[m])
    ensures SpaceEnd(s, i) == k
    decreases k - i
  {
    if i < k {
      SpacesTo(s, i + 1, k);
    }
  }

  /** DigitsEnd from j stops at k when s[j..k] is all digits and s[k], if any, is not. */
  lemma {:induction false} DigitsTo(s: string, j: nat, k: nat)
    requires j <= k <= |s| && Decimal.AllDigits(s[j..k])
    requires k < |s| ==> !Decimal.IsDigit(s[k])
    ensures DigitsEnd(s, j) == k
    decreases k - j
  {
    if j < k {
      assert s[j] == s[j..k][0];
      assert s[j + 1..k] == s[j..k][1..];
      DigitsTo(s, j + 1, k);
    }
  }

  /** A run of digits beyond the range of a long saturates to LONG_MAX, whose low 32 bits
      read as -1. */
  lemma OverflowSaturates(s: string)
    requires s != [] && Decimal.AllDigits(s) && Decimal.Value(s) > LongMax
    ensures ParseInt(s) == Some(-1)
  {
    assert StrToL(s) == (LongMax, |s|) by {
      DigitsRun(s);
    }
    assert Decimal.Wrap32(LongMax) == -1;
  }

  /** With a minus sign in front it saturates to LONG_MIN, whose low 32 bits read as 0. */
  lemma NegativeOverflowSaturates(s: string)
    requires s != [] && Decimal.AllDigits(s) && Decimal.Value(s) > LongMax
    ensures ParseInt("-" + s) == Some(0)
  {
    ParseNumeral("", "-", s);
    assert "" + "-" + s == "-" + s;
    assert ClampLong(Signed(true, s)) == LongMin;
    assert Decimal.Wrap32(LongMin) == 0;
  }

  /** DigitsEnd runs to the end of a string that is all digits from j on. */
  lemma {:induction false} DigitsFrom(s: string, j: nat)
    requires j <= |s| && Decimal.AllDigits(s[j..])
    ensures DigitsEnd(s, j) == |s|
    decreases |s| - j
  {
    if j < |s| {
      assert s[j] == s[j..][0];
      assert s[j + 1..] == s[j..][1..];
      DigitsFrom(s, j + 1);
    }
  }
}
