/** The string helpers of auto_delete.c: path_join, get_basename and get_dirname (POSIX
    basename() and dirname()), get_extension, the "_restored" rename of restore_file and the
    "<timestamp>_<basename>" held name, with format_string read as concatenation. */
module Paths {
  import Decimal

  /** strrchr: the index of the last c in s, or -1 when there is none. */
  function LastIndex(s: string, c: char): (i: int)
    ensures -1 <= i < |s|
    ensures i >= 0 ==> s[i] == c
    ensures forall j :: i < j < |s| ==> s[j] != c
  {
    if s == [] then -1
    else if s[|s| - 1] == c then |s| - 1
    else LastIndex(s[..|s| - 1], c)
  }

  /** The last c is the one at i when no c follows it. */
  lemma {:induction false} LastIndexAt(s: string, c: char, i: int)
    requires 0 <= i < |s| && s[i] == c
    requires forall j :: i < j < |s| ==> s[j] != c
    ensures LastIndex(s, c) == i
  {
    if i < |s| - 1 {
      LastIndexAt(s[..|s| - 1], c, i);
    }
  }

  predicate AllSlashes(s: string) {
    forall i :: 0 <= i < |s| ==> s[i] == '/'
  }

  /** path_join adds a separator only when the first part is non-empty and lacks one. */
  predicate NeedsSeparator(a: string) {
    |a| > 0 && a[|a| - 1] != '/'
  }

  /** path_join(a, b): a, then a '/' unless a is empty or already ends in one, then b. */
  function PathJoin(a: string, b: string): (r: string)
    ensures |a| + |b| <= |r| <= |a| + |b| + 1
    ensures |r| == |a| + |b| + 1 <==> NeedsSeparator(a)
    ensures r[..|a|] == a && r[|r| - |b|..] == b
    ensures |a| > 0 ==> r[|r| - |b| - 1] == '/'
  {
    if NeedsSeparator(a) then a + "/" + b else a + b
  }

  /** The longest prefix of s that does not end in '/'. */
  function StripTrailingSlashes(s: string): (r: string)
    ensures |r| <= |s| && r == s[..|r|]
    ensures r == [] || r[|r| - 1] != '/'
    ensures forall i :: |r| <= i < |s| ==> s[i] == '/'
  {
    if s != [] && s[|s| - 1] == '/' then StripTrailingSlashes(s[..|s| - 1]) else s
  }

  /** POSIX basename(): "." for the empty path, "/" for a path of slashes only, otherwise the
      last component once trailing slashes are removed. */
  function Basename(p: string): (r: string)
    ensures r != []
    ensures p == [] ==> r == "."
    ensures p != [] && AllSlashes(p) ==> r == "/"
    ensures !AllSlashes(p) ==>
              var q := StripTrailingSlashes(p);
              '/' !in r && |r| <= |q| && r == q[|q| - |r|..] && (|r| == |q| || q[|q| - |r| - 1] == '/')
  {
    if p == [] then "."
    else if AllSlashes(p) then "/"
    else
      var q := StripTrailingSlashes(p);
      q[LastIndex(q, '/') + 1..]
  }

  /** POSIX dirname(): "." for the empty path and for a single component, "/" for a path of
      slashes only or a component directly under the root, otherwise everything before the
      last component without its trailing slashes. */
  function Dirname(p: string): (r: string)
    ensures r != []
    ensures p == [] ==> r == "."
    ensures p != [] && AllSlashes(p) ==> r == "/"
    ensures !AllSlashes(p) && '/' !in StripTrailingSlashes(p) ==> r == "."
    ensures r == "." || r == "/" || (|r| < |p| && r == p[..|r|] && r[|r| - 1] != '/' && p[|r|] == '/')
  {
    if p == [] then "."
    else if AllSlashes(p) then "/"
    else
      var q := StripTrailingSlashes(p);
      var i := LastIndex(q, '/');
      if i < 0 then "."
      else
        var d := StripTrailingSlashes(q[..i]);
        if d == [] then "/" else d
  }

  /** get_extension: the suffix of the WHOLE path from its last '.', or "" without one. */
  function Extension(p: string): (r: string)
    ensures r == [] <==> '.' !in p
    ensures r != [] ==> r[0] == '.' && '.' !in r[1..] && |r| <= |p| && r == p[|p| - |r|..]
  {
    var i := LastIndex(p, '.');
    if i < 0 then "" else p[i..]
  }

  const RestoredTag := "_restored"

  /** The destination restore_file picks when the original path is occupied. It cuts the path
      at its last '.' (searched over the whole path, as get_extension does) by writing a NUL
      there, then formats the cut string, "_restored" and the text at the cut. That text now
      starts with the NUL, so it is empty: everything from the dot on is lost. Without a dot,
      "_restored" is appended. */
  function RestoredName(t: string): (r: string)
    ensures r == t[..|t| - |Extension(t)|] + RestoredTag
    ensures r != t
  {
    var i := LastIndex(t, '.');
    if i < 0 then t + RestoredTag
    else
      var r := t[..i] + RestoredTag;
      assert |r| <= |t| ==> r[i] != t[i];
      r
  }

  /** The name the format "%s_restored%s" is evidently meant to build: "_restored" in front of
      the extension, which is kept. */
  function IntendedRestoredName(t: string): (r: string)
    ensures var k := |t| - |Extension(t)|; r == t[..k] + RestoredTag + t[k..]
    ensures |r| == |t| + |RestoredTag| && r != t
  {
    var i := LastIndex(t, '.');
    if i < 0 then t + RestoredTag else t[..i] + RestoredTag + t[i..]
  }

  /** The name under which delete_file holds a file: "%ld_%s" of the time and the basename. */
  function HeldName(timestamp: int, base: string): string {
    Decimal.Show(timestamp) + "_" + base
  }

  /** realpath's output: absolute, no empty component, no trailing slash except for "/". */
  predicate IsCanonical(p: string) {
    && |p| >= 1 && p[0] == '/'
    && (|p| > 1 ==> p[|p| - 1] != '/')
    && forall i :: 1 <= i < |p| && p[i] == '/' ==> p[i - 1] != '/'
  }

  /** Joining splits back: the basename of dir/name is name. */
  lemma BasenameOfJoin(d: string, name: string)
    requires name != [] && '/' !in name
    ensures Basename(PathJoin(d, name)) == name
  {
    var r := PathJoin(d, name);
    assert r[|r| - 1] == name[|name| - 1];
    assert !AllSlashes(r);
    assert StripTrailingSlashes(r) == r;
    var i := LastIndex(r, '/');
    forall j | |r| - |name| <= j < |r|
      ensures r[j] != '/'
    {
      assert r[j] == name[j - (|r| - |name|)];
    }
    if |d| > 0 {
      assert i == |r| - |name| - 1;
    } else {
      assert i == -1;
    }
  }

  /** Joining splits back: the dirname of dir/name is dir, for a canonical dir. */
  lemma DirnameOfJoin(d: string, name: string)
    requires IsCanonical(d) && name != [] && '/' !in name
    ensures Dirname(PathJoin(d, name)) == d
  {
    var r := PathJoin(d, name);
    assert r[|r| - 1] == name[|name| - 1];
    assert !AllSlashes(r);
    assert StripTrailingSlashes(r) == r;
    forall j | |r| - |name| <= j < |r|
      ensures r[j] != '/'
    {
      assert r[j] == name[j - (|r| - |name|)];
    }
    var i := LastIndex(r, '/');
    assert i == |r| - |name| - 1;
    if d == "/" {
      assert i == 0;
      assert StripTrailingSlashes(r[..0]) == [];
    } else {
      assert i == |d| && r[..i] == d;
      assert StripTrailingSlashes(d) == d;
    }
  }

  /** Splitting joins back: a canonical path other than "/" is its dirname joined with its
      basename. */
  lemma JoinOfDirnameBasename(p: string)
    requires IsCanonical(p) && p != "/"
    ensures PathJoin(Dirname(p), Basename(p)) == p
  {
    assert !AllSlashes(p);
    assert StripTrailingSlashes(p) == p;
    var i := LastIndex(p, '/');
    assert i >= 0;
    if i == 0 {
      assert StripTrailingSlashes(p[..0]) == [];
      assert Dirname(p) == "/";
    } else {
      assert p[i - 1] != '/';
      assert StripTrailingSlashes(p[..i]) == p[..i];
      assert Dirname(p) == p[..i];
    }
    assert p == p[..i] + "/" + p[i + 1..];
  }

  /** A canonical directory joined with a plain name is canonical again. */
  lemma JoinIsCanonical(d: string, name: string)
    requires IsCanonical(d) && name != [] && '/' !in name
    ensures IsCanonical(PathJoin(d, name))
  {
    var r := PathJoin(d, name);
    assert r[|r| - 1] == name[|name| - 1];
    forall j | |r| - |name| <= j < |r|
      ensures r[j] != '/'
    {
      assert r[j] == name[j - (|r| - |name|)];
    }
    forall i | 1 <= i < |r| - |name| && r[i] == '/'
      ensures r[i - 1] != '/'
    {
      if i < |d| {
        assert r[i] == d[i] && r[i - 1] == d[i - 1];
      } else {
        assert i == |d| && d != "/";
        assert r[i - 1] == d[|d| - 1];
      }
    }
  }

  /** A plain component's basename is itself. */
  lemma BasenameOfCanonical(p: string)
    requires IsCanonical(p) && p != "/"
    ensures '/' !in Basename(p) && Basename(p) != []
  {
    assert !AllSlashes(p);
  }

  lemma NoUnderscoreInShow(t: int)
    ensures '_' !in Decimal.Show(t)
  {
    var s := Decimal.Show(t);
    forall i | 0 <= i < |s|
      ensures s[i] != '_'
    {
      assert Decimal.IsDigit(s[i]) || s[i] == '-';
    }
  }

  /** strchr: the index of the first c in s, or |s| when there is none. */
  function FirstIndex(s: string, c: char): (i: nat)
    ensures i <= |s|
  {
    if s == [] || s[0] == c then 0 else 1 + FirstIndex(s[1..], c)
  }

  lemma {:induction false} FirstIndexBeforeSeparator(s: string, b: string)
    requires '_' !in s
    ensures FirstIndex(s + "_" + b, '_') == |s|
  {
    if s != [] {
      assert (s + "_" + b)[1..] == s[1..] + "_" + b;
      FirstIndexBeforeSeparator(s[1..], b);
    }
  }

  /** A prefix free of '_' is fixed by the first '_' of the whole. */
  lemma SplitAtUnderscore(s1: string, b1: string, s2: string, b2: string)
    requires '_' !in s1 && '_' !in s2
    requires s1 + "_" + b1 == s2 + "_" + b2
    ensures s1 == s2 && b1 == b2
  {
    var h := s1 + "_" + b1;
    FirstIndexBeforeSeparator(s1, b1);
    FirstIndexBeforeSeparator(s2, b2);
    assert s1 == h[..|s1|] == s2;
    assert b1 == h[|s1| + 1..] == b2;
  }

  /** Held names of different rows coincide exactly when both the second and the basename
      do: two deletes of the same basename within one second collide. */
  lemma HeldNameInjective(t1: int, b1: string, t2: int, b2: string)
    ensures HeldName(t1, b1) == HeldName(t2, b2) <==> t1 == t2 && b1 == b2
  {
    if HeldName(t1, b1) == HeldName(t2, b2) {
      var s1, s2 := Decimal.Show(t1), Decimal.Show(t2);
      NoUnderscoreInShow(t1);
      NoUnderscoreInShow(t2);
      SplitAtUnderscore(s1, b1, s2, b2);
      Decimal.ShowInjective(t1, t2);
    }
  }

  /** A held name ends with '_' and then the basename, after the decimal time. */
  lemma HeldNameShape(t: int, base: string)
    ensures var r := HeldName(t, base);
            |r| > |base| + 1 && r[|r| - |base|..] == base && r[|r| - |base| - 1] == '_'
  {
  }

  /** A held name carries no '/' when the basename carries none, so it stays one component. */
  lemma HeldNameIsComponent(t: int, base: string)
    requires '/' !in base
    ensures HeldName(t, base) != [] && '/' !in HeldName(t, base)
  {
    var s := Decimal.Show(t);
    forall i | 0 <= i < |HeldName(t, base)|
      ensures HeldName(t, base)[i] != '/'
    {
      if i < |s| {
        assert HeldName(t, base)[i] == s[i];
      } else if i > |s| {
        assert HeldName(t, base)[i] == base[i - |s| - 1];
      }
    }
  }

  /** The intended name keeps the extension get_extension reports for the original. */
  lemma IntendedRestoredNameKeepsExtension(t: string)
    ensures Extension(IntendedRestoredName(t)) == Extension(t)
  {
    var r := IntendedRestoredName(t);
    var e := Extension(t);
    var k := |t| - |e|;
    assert '.' !in RestoredTag;
    if e == [] {
      forall j | 0 <= j < |r|
        ensures r[j] != '.'
      {
        if j < |t| {
          assert r[j] == t[j];
        } else {
          assert r[j] == RestoredTag[j - |t|];
        }
      }
    } else {
      assert r[|r| - |e|..] == e;
      var i := LastIndex(r, '.');
      assert r[|r| - |e|] == '.';
      forall j | |r| - |e| < j < |r|
        ensures r[j] != '.'
      {
        assert r[j] == e[j - (|r| - |e|)];
        assert e[j - (|r| - |e|)] == e[1..][j - (|r| - |e|) - 1];
      }
      assert i == |r| - |e|;
    }
  }

  /** As written, the extension is lost: a path with a single dot comes back with no
      extension at all, where the intended name would have kept it. */
  lemma RestoredNameDropsExtension(t: string)
    requires '.' in t && '.' !in t[..LastIndex(t, '.')]
    ensures Extension(t) != [] && Extension(RestoredName(t)) == []
    ensures RestoredName(t) != IntendedRestoredName(t)
  {
    var i := LastIndex(t, '.');
    var r := RestoredName(t);
    assert r == t[..i] + RestoredTag;
    assert '.' !in RestoredTag;
    forall j | 0 <= j < |r|
      ensures r[j] != '.'
    {
      if j < i {
        assert r[j] == t[..i][j];
      } else {
        assert r[j] == RestoredTag[j - i];
      }
    }
    assert |r| < |IntendedRestoredName(t)|;
  }

  /** The names restore_file builds for an occupied "/home/u/a.txt" and "/home/u/notes", and
      for "/srv/v1.2/notes", whose last dot is in a directory name. */
  lemma RestoredNameExamples()
    ensures RestoredName("/home/u/a.txt") == "/home/u/a" + RestoredTag
    ensures RestoredName("/home/u/notes") == "/home/u/notes" + RestoredTag
    ensures RestoredName("/srv/v1.2/notes") == "/srv/v1" + RestoredTag
  {
    var a, n, v := "/home/u/a.txt", "/home/u/notes", "/srv/v1.2/notes";
    LastIndexAt(a, '.', 9);
    assert RestoredName(a) == a[..9] + RestoredTag;
    assert a[..9] == "/home/u/a";
    assert '.' !in n;
    assert LastIndex(n, '.') == -1;
    assert RestoredName(n) == n + RestoredTag;
    LastIndexAt(v, '.', 7);
    assert RestoredName(v) == v[..7] + RestoredTag;
    assert v[..7] == "/srv/v1";
  }

  /** get_extension reads the last dot of the whole path, so a dot in a directory name turns
      the rest of the path into the "extension". */
  lemma ExtensionSpansDirectories()
    ensures Extension("/srv/v1.2/notes") == ".2/notes"
  {
    LastIndexAt("/srv/v1.2/notes", '.', 7);
  }

  /** strrchr does not see past characters it is not looking for. */
  lemma {:induction false} LastIndexAppend(a: string, b: string, c: char)
    requires c !in b
    ensures LastIndex(a + b, c) == LastIndex(a, c)
    decreases |b|
  {
    if b == [] {
      assert a + b == a;
    } else {
      var b' := b[..|b| - 1];
      assert (a + b)[..|a + b| - 1] == a + b';
      assert (a + b)[|a + b| - 1] == b[|b| - 1];
      LastIndexAppend(a, b', c);
    }
  }

  lemma ConcatAssoc(a: string, b: string, c: string)
    ensures a + (b + c) == (a + b) + c
  {
  }

  lemma SliceAppend(a: string, b: string, k: nat)
    requires k <= |a|
    ensures (a + b)[..k] == a[..k] && (a + b)[k..] == a[k..] + b
  {
  }

  /** When the last '.' of dir/name lies in dir, the cut falls in the directory part and the
      file name goes with the rest: the target is dir up to its last dot, then "_restored". */
  lemma RestoredNameOfJoin(d: string, name: string)
    requires IsCanonical(d) && '.' in d && name != [] && '/' !in name && '.' !in name
    ensures var k := LastIndex(d, '.');
            && 0 < k < |d|
            && RestoredName(PathJoin(d, name)) == d[..k] + RestoredTag
  {
    var k := LastIndex(d, '.');
    assert k >= 0;
    assert k != 0;
    var tail := "/" + name;
    assert NeedsSeparator(d) by {
      assert d != "/";
    }
    ConcatAssoc(d, "/", name);
    assert PathJoin(d, name) == d + tail;
    LastIndexAppend(d, tail, '.');
    SliceAppend(d, tail, k);
  }

  /** So a file whose directory path holds a dot (and whose own name holds none) is not put
      back into its directory: the target neither starts with the directory's path nor has it
      as its dirname. */
  lemma RestoredNameLeavesDirectory(d: string, name: string)
    requires IsCanonical(d) && '.' in d && name != [] && '/' !in name && '.' !in name
    ensures var r := RestoredName(PathJoin(d, name));
            && !(d <= r)
            && Dirname(r) != d
  {
    var k := LastIndex(d, '.');
    RestoredNameOfJoin(d, name);
    var r := RestoredName(PathJoin(d, name));
    assert r[k] == '_' && d[k] == '.';
    assert !(d <= r);
    assert d != "." && d != "/";
  }
}
