/** mkdir_p of trash.c: create every directory on a path, like `mkdir -p`. It copies the path
    into a 512-byte buffer, walks it from the second character, and at each '/' cuts the
    string there with a NUL, calls mkdir on the prefix and puts the '/' back; then it calls
    mkdir on the whole path. EEXIST counts as success; any other error stops the walk. */
module Trash {
  import CStrings

  const MaxPath := 512

  /** What exists at a path. mkdir reports EEXIST for either kind. */
  datatype Kind = Directory | Other

  datatype MkdirResult = Made | Exists | Failed

  /** The prefixes mkdir_p creates before the whole path, from index k on: `s[..m]` for every
      m >= k with `s[m] == '/'`, shortest first. */
  function PrefixesFrom(s: string, k: nat): seq<string>
    requires k <= |s|
    decreases |s| - k
  {
    if k == |s| then []
    else
      var rest := PrefixesFrom(s, k + 1);
      if s[k] == '/' then [s[..k]] + rest else rest
  }

  /** t is s cut just before a '/' at index k or later. */
  predicate IsCut(s: string, k: nat, t: string) {
    k <= |t| < |s| && t == s[..|t|] && s[|t|] == '/'
  }

  /** The prefixes are exactly the cuts at a '/' from index k on, in increasing length. */
  lemma {:induction false} PrefixesShape(s: string, k: nat)
    requires k <= |s|
    ensures forall i :: 0 <= i < |PrefixesFrom(s, k)| ==> IsCut(s, k, PrefixesFrom(s, k)[i])
    ensures forall i, j :: 0 <= i < j < |PrefixesFrom(s, k)| ==> |PrefixesFrom(s, k)[i]| < |PrefixesFrom(s, k)[j]|
    ensures forall m :: k <= m < |s| && s[m] == '/' ==> s[..m] in PrefixesFrom(s, k)
    decreases |s| - k
  {
    if k < |s| {
      PrefixesShape(s, k + 1);
      var rest := PrefixesFrom(s, k + 1);
      if s[k] == '/' {
        var r := [s[..k]] + rest;
        assert forall i :: 0 < i < |r| ==> r[i] == rest[i - 1];
      }
    }
  }

  /** Every mkdir call of mkdir_p on a path s, in order. */
  function Steps(s: string): (r: seq<string>)
    requires |s| >= 1
    ensures |r| >= 1 && r[|r| - 1] == s
  {
    PrefixesFrom(s, 1) + [s]
  }

  predicate Distinct(todo: seq<string>) {
    forall i, j :: 0 <= i < j < |todo| ==> todo[i] != todo[j]
  }

  /** A call that mkdir refuses with an error other than EEXIST: nothing is at the path and
      the system will not create it (`refused` stands for ENOENT, EACCES, ENOSPC, ...). */
  predicate Blocked(entries: map<string, Kind>, refused: set<string>, p: string) {
    p !in entries && p in refused
  }

  /** What a run of mkdir_p did: its return value, what then exists, and the mkdir calls. */
  datatype Outcome = Outcome(rc: int, entries: map<string, Kind>, calls: seq<string>)

  /** mkdir on each path of todo in order, stopping with -1 at the first call that fails with
      anything but EEXIST. */
  function Attempt(entries: map<string, Kind>, refused: set<string>, todo: seq<string>): Outcome
    decreases |todo|
  {
    if todo == [] then Outcome(0, entries, [])
    else
      var p := todo[0];
      if p in entries then
        var o := Attempt(entries, refused, todo[1..]);
        o.(calls := [p] + o.calls)
      else if p in refused then Outcome(-1, entries, [p])
      else
        var o := Attempt(entries[p := Directory], refused, todo[1..]);
        o.(calls := [p] + o.calls)
  }

  /** mkdir_p on `path`: -1 without any call for an empty path or one of MAX_PATH characters or
      more, otherwise mkdir on each of its steps. */
  function MkdirPEffect(entries: map<string, Kind>, refused: set<string>, path: string): (o: Outcome)
    ensures o.rc == 0 || o.rc == -1
    ensures forall q :: q in entries ==> q in o.entries && o.entries[q] == entries[q]
    ensures forall q :: q in o.entries && q !in entries ==> o.entries[q] == Directory && q in o.calls
  {
    var s := CStrings.UpToNul(path);
    if |s| == 0 || |s| >= MaxPath then Outcome(-1, entries, [])
    else
      AttemptShape(entries, refused, Steps(s));
      Attempt(entries, refused, Steps(s))
  }

  /** The calls are a prefix of todo, all of it on success; nothing that existed changes, and
      everything new is a directory that was asked for. */
  lemma {:induction false} AttemptShape(entries: map<string, Kind>, refused: set<string>, todo: seq<string>)
    ensures var o := Attempt(entries, refused, todo);
            && (o.rc == 0 || o.rc == -1)
            && |o.calls| <= |todo| && o.calls == todo[..|o.calls|]
            && (o.rc == 0 ==> |o.calls| == |todo| && forall i :: 0 <= i < |todo| ==> todo[i] in o.entries)
            && (o.rc == -1 ==> |o.calls| >= 1)
            && (forall q :: q in entries ==> q in o.entries && o.entries[q] == entries[q])
            && (forall q :: q in o.entries && q !in entries ==> o.entries[q] == Directory && q in o.calls)
    decreases |todo|
  {
    if todo != [] {
      var p := todo[0];
      var rest := todo[1..];
      assert todo == [p] + rest;
      if p in entries {
        AttemptShape(entries, refused, rest);
      } else if p !in refused {
        AttemptShape(entries[p := Directory], refused, rest);
      }
    }
  }

  /** On distinct paths, the result is 0 exactly when no call is refused, and a failure is the
      first refused call. */
  lemma {:induction false} AttemptBlocked(entries: map<string, Kind>, refused: set<string>, todo: seq<string>)
    requires Distinct(todo)
    ensures var o := Attempt(entries, refused, todo);
            && (o.rc == 0 <==> forall i :: 0 <= i < |todo| ==> !Blocked(entries, refused, todo[i]))
            && (o.rc != 0 ==> o.rc == -1 && |o.calls| >= 1 && Blocked(entries, refused, o.calls[|o.calls| - 1]))
            && (forall i :: 0 <= i < |o.calls| - 1 ==> !Blocked(entries, refused, o.calls[i]))
    decreases |todo|
  {
    if todo != [] {
      var p := todo[0];
      var rest := todo[1..];
      assert Distinct(rest) by {
        assert forall i :: 0 <= i < |rest| ==> rest[i] == todo[i + 1];
      }
      assert forall i :: 0 < i < |todo| ==> todo[i] == rest[i - 1];
      if p in entries {
        AttemptBlocked(entries, refused, rest);
      } else if p !in refused {
        var more := entries[p := Directory];
        AttemptBlocked(more, refused, rest);
        assert forall i :: 0 <= i < |rest| ==> rest[i] != p by {
          assert forall i :: 0 <= i < |rest| ==> rest[i] == todo[i + 1];
        }
        assert forall i :: 0 <= i < |rest| ==> (Blocked(more, refused, rest[i]) <==> Blocked(entries, refused, rest[i]));
      }
    }
  }

  /** The steps of a path never include the empty string (not even for a leading '/'), are
      distinct, begin with every prefix that ends just before a '/' and end with the path. */
  lemma StepsShape(s: string)
    requires |s| >= 1
    ensures var r := Steps(s);
            && Distinct(r)
            && (forall i :: 0 <= i < |r| ==> 1 <= |r[i]| <= |s| && r[i] == s[..|r[i]|])
            && (forall i :: 0 <= i < |r| - 1 ==> |r[i]| < |s| && s[|r[i]|] == '/')
            && (forall m :: 1 <= m < |s| && s[m] == '/' ==> s[..m] in r)
  {
    var r := Steps(s);
    var pre := PrefixesFrom(s, 1);
    PrefixesShape(s, 1);
    assert r == pre + [s];
    assert |r| - 1 == |pre|;
    assert forall i :: 0 <= i < |pre| ==> r[i] == pre[i] && 1 <= |pre[i]| < |s|;
    forall i, j | 0 <= i < j < |r|
      ensures r[i] != r[j]
    {
      assert |r[i]| < |r[j]|;
    }
  }

  /** After a successful mkdir_p every step exists; each is a directory unless something that
      is not a directory already stood at that name. */
  lemma MkdirPSucceeds(entries: map<string, Kind>, refused: set<string>, path: string)
    requires var s := CStrings.UpToNul(path); 1 <= |s| < MaxPath
    ensures var s := CStrings.UpToNul(path); var o := MkdirPEffect(entries, refused, path);
            && (o.rc == 0 <==> forall t :: t in Steps(s) ==> !Blocked(entries, refused, t))
            && (o.rc == 0 ==> o.calls == Steps(s) && forall t :: t in Steps(s) ==> t in o.entries)
            && (o.rc == 0 ==> forall t :: t in Steps(s) && (t !in entries || entries[t] == Directory) ==> o.entries[t] == Directory)
            && (forall q :: q in entries ==> q in o.entries && o.entries[q] == entries[q])
  {
    var s := CStrings.UpToNul(path);
    StepsShape(s);
    AttemptShape(entries, refused, Steps(s));
    AttemptBlocked(entries, refused, Steps(s));
  }

  /** A failed mkdir_p stops at the first refused step: the calls are the steps up to it and
      the later ones are never attempted. */
  lemma MkdirPStops(entries: map<string, Kind>, refused: set<string>, path: string)
    requires var s := CStrings.UpToNul(path); 1 <= |s| < MaxPath
    ensures var s := CStrings.UpToNul(path); var o := MkdirPEffect(entries, refused, path);
            o.rc == -1 ==>
              && 1 <= |o.calls| <= |Steps(s)| && o.calls == Steps(s)[..|o.calls|]
              && Blocked(entries, refused, o.calls[|o.calls| - 1])
              && (forall i :: 0 <= i < |o.calls| - 1 ==> !Blocked(entries, refused, o.calls[i]))
  {
    var s := CStrings.UpToNul(path);
    StepsShape(s);
    AttemptShape(entries, refused, Steps(s));
    AttemptBlocked(entries, refused, Steps(s));
  }

  /** An empty path, or one that does not fit the buffer, fails before any mkdir. */
  lemma MkdirPRejects(entries: map<string, Kind>, refused: set<string>, path: string)
    requires var s := CStrings.UpToNul(path); |s| == 0 || |s| >= MaxPath
    ensures MkdirPEffect(entries, refused, path) == Outcome(-1, entries, [])
  {
  }

  /** EEXIST is success whatever exists at the name: when something stands at every step,
      mkdir_p returns 0 and changes nothing, even if none of it is a directory. */
  lemma ExistingIsSuccess(entries: map<string, Kind>, refused: set<string>, path: string)
    requires var s := CStrings.UpToNul(path); 1 <= |s| < MaxPath && forall t :: t in Steps(s) ==> t in entries
    ensures var o := MkdirPEffect(entries, refused, path);
            o.rc == 0 && o.entries == entries
  {
    var s := CStrings.UpToNul(path);
    MkdirPSucceeds(entries, refused, path);
    var o := MkdirPEffect(entries, refused, path);
    AttemptShape(entries, refused, Steps(s));
  }

  /** With a regular file at "/tmp/a", mkdir_p("/tmp/a") reports success and "/tmp/a" is
      still not a directory. */
  lemma FileInTheWay()
    ensures var e := map["/tmp" := Directory, "/tmp/a" := Other];
            var o := MkdirPEffect(e, {}, "/tmp/a");
            o.rc == 0 && "/tmp/a" in o.entries && o.entries["/tmp/a"] == Other
  {
    var e := map["/tmp" := Directory, "/tmp/a" := Other];
    var s := "/tmp/a";
    NulFree(s);
    assert PrefixesFrom(s, 6) == [];
    assert PrefixesFrom(s, 5) == [];
    assert s[..4] == "/tmp";
    assert PrefixesFrom(s, 4) == ["/tmp"];
    assert PrefixesFrom(s, 3) == ["/tmp"];
    assert PrefixesFrom(s, 2) == ["/tmp"];
    assert PrefixesFrom(s, 1) == ["/tmp"];
    assert Steps(s) == ["/tmp", s];
    ExistingIsSuccess(e, {}, s);
  }

  lemma NulFree(s: string)
    requires '\0' !in s
    ensures CStrings.UpToNul(s) == s
  {
  }

  /** A C string ends at its first NUL. */
  lemma UpToNulAt(t: string, k: nat)
    requires k < |t| && t[k] == '\0' && '\0' !in t[..k]
    ensures CStrings.UpToNul(t) == t[..k]
  {
  }

  /** The file system as mkdir sees it: what exists, the paths whose creation it refuses, and
      the mkdir calls made so far. */
  class Disk {
    var entries: map<string, Kind>
    const refused: set<string>
    var log: seq<string>

    constructor (entries0: map<string, Kind>, refused0: set<string>)
      ensures entries == entries0 && refused == refused0 && log == []
    {
      entries := entries0;
      refused := refused0;
      log := [];
    }

    /** mkdir(p, 0755). */
    method Mkdir(p: string) returns (r: MkdirResult)
      modifies this
      ensures log == old(log) + [p]
      ensures p in old(entries) ==> r == Exists && entries == old(entries)
      ensures p !in old(entries) && p in refused ==> r == Failed && entries == old(entries)
      ensures p !in old(entries) && p !in refused ==> r == Made && entries == old(entries)[p := Directory]
    {
      log := log + [p];
      if p in entries {
        r := Exists;
      } else if p in refused {
        r := Failed;
      } else {
        entries := entries[p := Directory];
        r := Made;
      }
    }
  }

  /** One mkdir as Attempt counts it. */
  lemma AttemptStep(entries: map<string, Kind>, refused: set<string>, p: string, rest: seq<string>)
    ensures var o := Attempt(entries, refused, [p] + rest);
            && (p in entries ==> o == Attempt(entries, refused, rest).(calls := [p] + Attempt(entries, refused, rest).calls))
            && (Blocked(entries, refused, p) ==> o == Outcome(-1, entries, [p]))
            && (p !in entries && p !in refused ==>
                  o == Attempt(entries[p := Directory], refused, rest).(calls := [p] + Attempt(entries[p := Directory], refused, rest).calls))
  {
    assert ([p] + rest)[0] == p;
    assert ([p] + rest)[1..] == rest;
  }

  /** The whole outcome equals the calls made so far followed by the outcome of what is left. */
  ghost predicate OnTrack(goal: Outcome, done: seq<string>, rest: Outcome) {
    goal == Outcome(rest.rc, rest.entries, done + rest.calls)
  }

  /** Writing a NUL at index p of a buffer that holds s cuts the C string to s's first p
      characters. */
  lemma CutAt(t: string, s: string, p: nat)
    requires p < |s| < |t| && t[..|s|] == s && '\0' !in s
    ensures CStrings.UpToNul(t[p := '\0']) == s[..p]
  {
    var u := t[p := '\0'];
    assert u[..p] == s[..p] by {
      assert forall i :: 0 <= i < p ==> u[i] == t[..|s|][i];
    }
    UpToNulAt(u, p);
  }

  /** One index of the walk: a '/' at k contributes the prefix before it. */
  lemma PrefixesStep(s: string, k: nat)
    requires k < |s|
    ensures s[k] == '/' ==> PrefixesFrom(s, k) == [s[..k]] + PrefixesFrom(s, k + 1)
    ensures s[k] != '/' ==> PrefixesFrom(s, k) == PrefixesFrom(s, k + 1)
  {
  }

  /** One mkdir of q with the result the disk gave: a failure ends the run with -1, anything
      else leaves it on track with q logged. */
  lemma Advance(goal: Outcome, done: seq<string>, entries: map<string, Kind>, refused: set<string>,
                q: string, todo: seq<string>, r: MkdirResult, after: map<string, Kind>)
    requires OnTrack(goal, done, Attempt(entries, refused, [q] + todo))
    requires q in entries ==> r == Exists && after == entries
    requires q !in entries && q in refused ==> r == Failed && after == entries
    requires q !in entries && q !in refused ==> r == Made && after == entries[q := Directory]
    ensures r == Failed ==> goal == Outcome(-1, entries, done + [q])
    ensures r != Failed ==> OnTrack(goal, done + [q], Attempt(after, refused, todo))
  {
    AttemptStep(entries, refused, q, todo);
  }

  /** Running two lists is running the first and, unless it failed, the second from where the
      first left the disk. */
  lemma {:induction false} AttemptAppend(entries: map<string, Kind>, refused: set<string>, a: seq<string>, b: seq<string>)
    ensures var o := Attempt(entries, refused, a);
            var o2 := Attempt(o.entries, refused, b);
            Attempt(entries, refused, a + b) == if o.rc != 0 then o else Outcome(o2.rc, o2.entries, o.calls + o2.calls)
    decreases |a|
  {
    if a == [] {
      assert a + b == b;
    } else {
      var p := a[0];
      assert a + b == [p] + (a[1..] + b);
      assert a == [p] + a[1..];
      AttemptStep(entries, refused, p, a[1..] + b);
      AttemptStep(entries, refused, p, a[1..]);
      if p in entries {
        AttemptAppend(entries, refused, a[1..], b);
      } else if p !in refused {
        AttemptAppend(entries[p := Directory], refused, a[1..], b);
      }
    }
  }

  /** One turn of the loop at a '/' at index p: cut the buffer there, mkdir the prefix, and
      unless that failed put the '/' back. */
  method MkdirPrefix(disk: Disk, tmp: array<char>, s: string, p: nat) returns (r: MkdirResult)
    requires tmp.Length == MaxPath && p < |s| < MaxPath
    requires tmp[..|s|] == s && '\0' !in s && s[p] == '/'
    modifies disk, tmp
    ensures r != Failed ==> tmp[..] == old(tmp[..])
    ensures var q := s[..p];
            && disk.log == old(disk.log) + [q]
            && (q in old(disk.entries) ==> r == Exists && disk.entries == old(disk.entries))
            && (q !in old(disk.entries) && q in disk.refused ==> r == Failed && disk.entries == old(disk.entries))
            && (q !in old(disk.entries) && q !in disk.refused ==> r == Made && disk.entries == old(disk.entries)[q := Directory])
  {
    ghost var image := tmp[..];
    tmp[p] := '\0';
    assert CStrings.UpToNul(tmp[..]) == s[..p] by {
      assert tmp[..] == image[p := '\0'];
      CutAt(image, s, p);
    }
    r := disk.Mkdir(CStrings.UpToNul(tmp[..]));
    if r == Failed {
      return;
    }
    tmp[p] := '/';
    assert image[p] == image[..|s|][p];
    assert tmp[..] == image;
  }

  /** The loop of mkdir_p over the buffer: at every '/' after the first character, cut the
      string there, mkdir the prefix and put the '/' back. When every call succeeds the buffer
      ends as it started. */
  method MakeParents(disk: Disk, tmp: array<char>, s: string) returns (ok: bool)
    requires tmp.Length == MaxPath && 1 <= |s| < MaxPath
    requires tmp[..|s|] == s && tmp[|s|] == '\0' && '\0' !in s
    modifies disk, tmp
    ensures ok ==> tmp[..] == old(tmp[..])
    ensures var o := Attempt(old(disk.entries), disk.refused, PrefixesFrom(s, 1));
            ok == (o.rc == 0) && disk.entries == o.entries && disk.log == old(disk.log) + o.calls
  {
    var len := |s|;
    ghost var image := tmp[..];
    ghost var goal := Attempt(disk.entries, disk.refused, PrefixesFrom(s, 1));
    ghost var log0 := disk.log;
    ghost var done: seq<string> := [];
    assert image[..len] == s;
    var p := 1;
    while tmp[p] != '\0'
      invariant 1 <= p <= len
      invariant tmp[..] == image && image[..len] == s && image[len] == '\0'
      invariant disk.log == log0 + done
      invariant OnTrack(goal, done, Attempt(disk.entries, disk.refused, PrefixesFrom(s, p)))
      decreases len - p
    {
      assert tmp[p] == s[p] by {
        assert image[..len][p] == image[p];
      }
      PrefixesStep(s, p);
      if tmp[p] == '/' {
        ghost var entries := disk.entries;
        var r := MkdirPrefix(disk, tmp, s, p);
        Advance(goal, done, entries, disk.refused, s[..p], PrefixesFrom(s, p + 1), r, disk.entries);
        done := done + [s[..p]];
        if r == Failed {
          return false;
        }
      }
      p := p + 1;
    }
    assert tmp[p] == image[len];
    return true;
  }

  /** mkdir_p(path) against the disk; the return value is 0 or -1. */
  method MkdirP(disk: Disk, path: string) returns (rc: int)
    modifies disk
    ensures var o := MkdirPEffect(old(disk.entries), disk.refused, path);
            rc == o.rc && disk.entries == o.entries && disk.log == old(disk.log) + o.calls
  {
    var s := CStrings.UpToNul(path);
    var len := |s|;
    if len == 0 || len >= MaxPath {
      return -1;
    }
    // The working buffer holds the path followed by NUL padding to its full size.
    var tmp := new char[MaxPath](i => if 0 <= i < len then s[i] else '\0');
    ghost var image := tmp[..];
    assert image[..len] == s;
    ghost var first := Attempt(disk.entries, disk.refused, PrefixesFrom(s, 1));
    AttemptAppend(disk.entries, disk.refused, PrefixesFrom(s, 1), [s]);
    AttemptShape(disk.entries, disk.refused, PrefixesFrom(s, 1));
    var ok := MakeParents(disk, tmp, s);
    if !ok {
      return -1;
    }
    assert CStrings.UpToNul(tmp[..]) == s by {
      UpToNulAt(tmp[..], len);
    }
    ghost var entries := disk.entries;
    AttemptStep(entries, disk.refused, s, []);
    var r := disk.Mkdir(CStrings.UpToNul(tmp[..]));
    if r == Failed {
      return -1;
    }
    rc := 0;
  }
}
