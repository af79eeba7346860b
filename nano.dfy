/** The line buffer of the small nano-like editor (nano.c): a growable array of line
    strings with insert and delete by shifting, a loader that splits a file on '\n', a
    saver that joins the lines with '\n', and the editing keys of the main loop. */
module Nano {
  import opened Wrappers
  import CStrings

  const MaxLines := 1000
  const MaxLineLength := 1000

  /** The most characters a line buffer of MAX_LINE_LENGTH bytes holds besides its NUL. */
  const MaxLineChars := MaxLineLength - 1

  /** What buffer_save writes: the lines with a '\n' between neighbours and none at the end. */
  function JoinLines(ls: seq<string>): (r: string)
    ensures (forall i :: 0 <= i < |ls| ==> '\0' !in ls[i]) ==> '\0' !in r
  {
    if |ls| == 0 then []
    else if |ls| == 1 then ls[0]
    else JoinLines(ls[..|ls| - 1]) + "\n" + ls[|ls| - 1]
  }

  /** The pieces between the '\n' characters of s, in order; an independent reference for
      what the loader reads. */
  function Split(s: string): (ls: seq<string>)
    ensures |ls| >= 1
    ensures forall i :: 0 <= i < |ls| ==> '\n' !in ls[i]
    ensures '\0' !in s ==> forall i :: 0 <= i < |ls| ==> '\0' !in ls[i]
    ensures ls[|ls| - 1] == [] <==> s == [] || s[|s| - 1] == '\n'
  {
    if s == [] then [""]
    else
      var init := Split(s[..|s| - 1]);
      var c := s[|s| - 1];
      if c == '\n' then init + [""]
      else init[..|init| - 1] + [init[|init| - 1] + [c]]
  }

  /** The state of buffer_open's read loop after some input: the lines completed so far and
      the characters kept in `temp` for the current line (at most MAX_LINE_LENGTH-1). */
  datatype Progress = Progress(done: seq<string>, temp: string)

  /** One character through the read loop: '\n' completes the line in `temp` (copied with
      strcpy, so up to its first NUL), any other character is kept while `temp` has room. */
  function Feed(p: Progress, c: char): (q: Progress)
    requires |p.temp| <= MaxLineChars
    ensures |q.temp| <= MaxLineChars
  {
    if c == '\n' then Progress(p.done + [CStrings.UpToNul(p.temp)], [])
    else if |p.temp| < MaxLineChars then Progress(p.done, p.temp + [c])
    else p
  }

  function Scan(data: string): (p: Progress)
    ensures |p.temp| <= MaxLineChars
    ensures '\n' !in p.temp
  {
    if data == [] then Progress([], [])
    else Feed(Scan(data[..|data| - 1]), data[|data| - 1])
  }

  /** A line as the line array holds it: no '\n', no NUL, and room for its NUL in a line
      buffer. */
  predicate Fits(line: string) {
    '\n' !in line && '\0' !in line && |line| <= MaxLineChars
  }

  /** Every line the read loop completes is free of '\n' and NUL and fits a line buffer. */
  lemma {:induction false} ScanDone(data: string)
    ensures forall i :: 0 <= i < |Scan(data).done| ==> Fits(Scan(data).done[i])
  {
    if data != [] {
      var p := Scan(data[..|data| - 1]);
      ScanDone(data[..|data| - 1]);
      var line := CStrings.UpToNul(p.temp);
      assert forall k :: 0 <= k < |line| ==> line[k] == p.temp[k];
      var q := Scan(data);
      assert q == Feed(p, data[|data| - 1]);
      if data[|data| - 1] == '\n' {
        assert q.done == p.done + [line];
        forall i | 0 <= i < |q.done| ensures Fits(q.done[i]) {
          if i < |p.done| {
            assert q.done[i] == p.done[i];
          }
        }
      }
    }
  }

  lemma ScanSnoc(d: string, c: char)
    ensures Scan(d + [c]) == Feed(Scan(d), c)
  {
    assert (d + [c])[..|d|] == d;
  }

  /** The lines buffer_open leaves in the buffer for a file holding data: every '\n' ends a
      line, a last unterminated piece is a line too, each line is cut to MAX_LINE_LENGTH-1
      characters and at its first NUL, and an empty file gives one empty line. */
  function Loaded(data: string): (ls: seq<string>)
    ensures |ls| >= 1
    ensures |ls| >= |Scan(data).done|
    ensures forall i :: 0 <= i < |ls| ==> '\n' !in ls[i] && '\0' !in ls[i] && |ls[i]| <= MaxLineChars
  {
    var p := Scan(data);
    ScanDone(data);
    var line := CStrings.UpToNul(p.temp);
    assert forall k :: 0 <= k < |line| ==> line[k] == p.temp[k];
    var all := if |p.temp| > 0 then p.done + [line] else p.done;
    if all == [] then [""] else all
  }

  /** Text the loader reads without loss: no NUL and no line longer than a line buffer holds. */
  predicate Clean(s: string) {
    && '\0' !in s
    && forall i :: 0 <= i < |Split(s)| ==> |Split(s)[i]| <= MaxLineChars
  }

  /** Lines the saver and the loader agree on. */
  predicate Storable(ls: seq<string>) {
    && |ls| >= 1
    && (forall i :: 0 <= i < |ls| ==> '\n' !in ls[i] && '\0' !in ls[i] && |ls[i]| <= MaxLineChars)
    && (|ls| == 1 || ls[|ls| - 1] != [])
  }

  lemma NulFree(s: string)
    requires '\0' !in s
    ensures CStrings.UpToNul(s) == s
  {
  }

  /** Text before a clean text's last character is clean too. */
  lemma CleanInit(s: string)
    requires Clean(s) && s != []
    ensures Clean(s[..|s| - 1])
  {
    var d := s[..|s| - 1];
    var c := s[|s| - 1];
    var init := Split(d);
    var ls := Split(s);
    assert '\0' !in d by {
      assert forall k :: 0 <= k < |d| ==> d[k] == s[k];
    }
    if c == '\n' {
      assert forall i :: 0 <= i < |init| ==> init[i] == ls[i];
    } else {
      assert forall i :: 0 <= i < |init| - 1 ==> init[i] == ls[i];
      assert |init[|init| - 1]| < |ls[|ls| - 1]|;
    }
  }

  /** On clean text the read loop has completed every piece but the last, which is in temp. */
  lemma {:induction false} ScanIsSplit(s: string)
    requires Clean(s)
    ensures var ls := Split(s); Scan(s).done == ls[..|ls| - 1] && Scan(s).temp == ls[|ls| - 1]
  {
    if s != [] {
      var d := s[..|s| - 1];
      var c := s[|s| - 1];
      var init := Split(d);
      var ls := Split(s);
      var m := |init|;
      CleanInit(s);
      ScanIsSplit(d);
      assert Scan(s) == Feed(Scan(d), c);
      if c == '\n' {
        assert ls == init + [""];
        NulFree(init[m - 1]);
        assert init[..m - 1] + [init[m - 1]] == init;
      } else {
        assert ls == init[..m - 1] + [init[m - 1] + [c]];
        assert ls[..m - 1] == init[..m - 1];
        assert |ls[m - 1]| <= MaxLineChars;
      }
    }
  }

  /** The loader splits clean text on '\n', dropping only the empty piece after a final '\n'. */
  lemma LoadedIsSplit(s: string)
    requires Clean(s)
    ensures var ls := Split(s);
            Loaded(s) == if s != [] && s[|s| - 1] == '\n' then ls[..|ls| - 1] else ls
  {
    ScanIsSplit(s);
    var ls := Split(s);
    if s != [] && s[|s| - 1] == '\n' {
      assert Split(s[..|s| - 1]) == ls[..|ls| - 1];
    } else if s != [] {
      NulFree(ls[|ls| - 1]);
      assert ls[..|ls| - 1] + [ls[|ls| - 1]] == ls;
    }
  }

  /** Adding a character to the last line adds it to the end of the text. */
  lemma JoinSnoc(ls: seq<string>, c: char)
    requires |ls| >= 1
    ensures JoinLines(ls[..|ls| - 1] + [ls[|ls| - 1] + [c]]) == JoinLines(ls) + [c]
  {
    var n := |ls|;
    var t := ls[..n - 1] + [ls[n - 1] + [c]];
    if n > 1 {
      assert t[..n - 1] == ls[..n - 1];
    }
  }

  /** Joining the pieces of s gives s back. */
  lemma {:induction false} JoinSplit(s: string)
    ensures JoinLines(Split(s)) == s
  {
    if s != [] {
      var d := s[..|s| - 1];
      var c := s[|s| - 1];
      var init := Split(d);
      var m := |init|;
      assert s == d + [c];
      JoinSplit(d);
      if c == '\n' {
        assert Split(s) == init + [""];
        assert (init + [""])[..m] == init;
      } else {
        assert Split(s) == init[..m - 1] + [init[m - 1] + [c]];
        JoinSnoc(init, c);
      }
    }
  }

  /** Split read one character further. */
  lemma SplitSnoc(d: string, c: char)
    ensures var init := Split(d);
            Split(d + [c]) == if c == '\n' then init + [""]
                              else init[..|init| - 1] + [init[|init| - 1] + [c]]
  {
    assert (d + [c])[..|d|] == d;
  }

  /** Appending text without '\n' extends the last piece. */
  lemma {:induction false} SplitAppend(x: string, t: string)
    requires '\n' !in t
    ensures var ls := Split(x); Split(x + t) == ls[..|ls| - 1] + [ls[|ls| - 1] + t]
    decreases |t|
  {
    var ls := Split(x);
    var m := |ls|;
    if t == [] {
      assert x + t == x;
      assert ls[m - 1] + t == ls[m - 1];
      assert ls[..m - 1] + [ls[m - 1]] == ls;
    } else {
      var u := t[..|t| - 1];
      var c := t[|t| - 1];
      assert u + [c] == t;
      assert x + t == (x + u) + [c];
      assert '\n' !in u by {
        assert forall k :: 0 <= k < |u| ==> u[k] == t[k];
      }
      assert c != '\n' by { assert c == t[|t| - 1]; }
      SplitAppend(x, u);
      var init := ls[..m - 1] + [ls[m - 1] + u];
      assert init[..m - 1] == ls[..m - 1];
      assert init[m - 1] + [c] == ls[m - 1] + t;
      SplitSnoc(x + u, c);
    }
  }

  /** A '\n' and then a piece without one add that piece after the pieces of j. */
  lemma SplitAfterNewline(j: string, last: string)
    requires '\n' !in last
    ensures Split((j + "\n") + last) == Split(j) + [last]
  {
    var k := Split(j) + [""];
    SplitSnoc(j, '\n');
    SplitAppend(j + "\n", last);
    assert k[..|k| - 1] == Split(j);
    assert k[|k| - 1] + last == last;
  }

  /** Text without '\n' is one piece. */
  lemma SplitPiece(t: string)
    requires '\n' !in t
    ensures Split(t) == [t]
  {
    assert [] + t == t;
    SplitAppend([], t);
    assert [""][..0] + ["" + t] == [t];
  }

  /** Splitting joined lines gives the lines back. */
  lemma {:induction false} SplitJoin(ls: seq<string>)
    requires |ls| >= 1
    requires forall i :: 0 <= i < |ls| ==> '\n' !in ls[i]
    ensures Split(JoinLines(ls)) == ls
  {
    var n := |ls|;
    if n == 1 {
      SplitPiece(ls[0]);
      assert [ls[0]] == ls;
    } else {
      var init := ls[..n - 1];
      assert init + [ls[n - 1]] == ls;
      assert forall i :: 0 <= i < |init| ==> init[i] == ls[i];
      SplitJoin(init);
      SplitAfterNewline(JoinLines(init), ls[n - 1]);
    }
  }

  /** Opening what was saved gives the same lines. */
  lemma OpenAfterSave(ls: seq<string>)
    requires Storable(ls)
    ensures Loaded(JoinLines(ls)) == ls
  {
    var s := JoinLines(ls);
    SplitJoin(ls);
    assert Clean(s);
    LoadedIsSplit(s);
  }

  /** Saving what was opened writes the file back unchanged, when it is clean and does not end
      with '\n'. */
  lemma SaveAfterOpen(s: string)
    requires Clean(s) && (s == [] || s[|s| - 1] != '\n')
    ensures JoinLines(Loaded(s)) == s
  {
    LoadedIsSplit(s);
    JoinSplit(s);
  }

  /** A final '\n' is lost by the round trip. */
  lemma SaveAfterOpenDropsFinalNewline(s: string)
    requires Clean(s) && s != [] && s[|s| - 1] == '\n'
    ensures JoinLines(Loaded(s)) == s[..|s| - 1]
  {
    LoadedIsSplit(s);
    JoinSplit(s[..|s| - 1]);
  }

  /** A line longer than a line buffer keeps only its first MAX_LINE_LENGTH-1 characters. */
  lemma {:induction false} LongLineCut(s: string)
    requires '\n' !in s && '\0' !in s
    ensures Scan(s) == Progress([], if |s| <= MaxLineChars then s else s[..MaxLineChars])
  {
    if s != [] {
      var d := s[..|s| - 1];
      LongLineCut(d);
      if |d| > MaxLineChars {
        assert d[..MaxLineChars] == s[..MaxLineChars];
      }
    }
  }

  /** Whatever the input, the loop's completed lines only grow as more is read. */
  lemma {:induction false} ScanGrows(d: string, e: string)
    ensures |Scan(d).done| <= |Scan(d + e).done|
    decreases |e|
  {
    if e != [] {
      var f := e[..|e| - 1];
      ScanGrows(d, f);
      assert (d + e)[..|d + e| - 1] == d + f;
    } else {
      assert d + e == d;
    }
  }

  /** realloc of the line array to twice its capacity: the old slots keep their lines. */
  method Grow(a: array<string>) returns (b: array<string>)
    ensures fresh(b) && b.Length == 2 * a.Length && b[..a.Length] == a[..]
  {
    b := new string[2 * a.Length];
    var k := 0;
    while k < a.Length
      invariant 0 <= k <= a.Length
      invariant forall m :: 0 <= m < k ==> b[m] == a[m]
    {
      b[k] := a[k];
      k := k + 1;
    }
  }

  /** The loop of buffer_insert_line: from the end down to `at`, each slot takes the line
      above it, so lines `at..n-1` move to `at+1..n` and slot `at` is free to overwrite. */
  method ShiftDown(a: array<string>, at: int, n: int)
    requires 0 <= at <= n < a.Length
    modifies a
    ensures a[..at] == old(a[..at]) && a[at + 1..n + 1] == old(a[at..n])
  {
    ghost var before := a[..];
    var i := n;
    while i > at
      invariant at <= i <= n
      invariant forall k :: 0 <= k < i ==> a[k] == before[k]
      invariant forall k :: i < k <= n ==> a[k] == before[k - 1]
      decreases i
    {
      a[i] := a[i - 1];
      i := i - 1;
    }
    assert a[..at] == before[..at];
    assert a[at + 1..n + 1] == before[at..n];
  }

  /** The loop of buffer_delete_line: from `at` up, each slot takes the line below it, so
      lines `at+1..n-1` move to `at..n-2`. */
  method ShiftUp(a: array<string>, at: int, n: int)
    requires 0 <= at < n <= a.Length
    modifies a
    ensures a[..at] == old(a[..at]) && a[at..n - 1] == old(a[at + 1..n])
  {
    ghost var before := a[..];
    var i := at;
    while i < n - 1
      invariant at <= i <= n - 1
      invariant forall k :: 0 <= k < at ==> a[k] == before[k]
      invariant forall k :: at <= k < i ==> a[k] == before[k + 1]
      invariant forall k :: i < k < n ==> a[k] == before[k]
    {
      a[i] := a[i + 1];
      i := i + 1;
    }
  }

  /** One more character of the file through the read loop; the lines completed never
      outnumber the lines of the whole file. */
  lemma ScanStep(data: string, pos: int)
    requires 0 <= pos < |data|
    ensures Scan(data[..pos + 1]) == Feed(Scan(data[..pos]), data[pos])
    ensures |Scan(data[..pos + 1]).done| <= |Loaded(data)|
  {
    assert data[..pos + 1] == data[..pos] + [data[pos]];
    ScanSnoc(data[..pos], data[pos]);
    assert data[..pos + 1] + data[pos + 1..] == data;
    ScanGrows(data[..pos + 1], data[pos + 1..]);
  }

  /** The read loop of buffer_open: completed lines go to the front of `a`, the current one
      is kept in `temp`, the 1000-byte line buffer. */
  method ReadLoop(a: array<string>, temp: array<char>, data: string) returns (lineCount: int, i: int)
    requires |Loaded(data)| <= a.Length && temp.Length == MaxLineLength
    modifies a, temp
    ensures 0 <= i <= MaxLineChars && 0 <= lineCount <= a.Length
    ensures Scan(data) == Progress(a[..lineCount], temp[..i])
  {
    i := 0;
    lineCount := 0;
    var pos := 0;
    while pos < |data|
      invariant 0 <= pos <= |data|
      invariant 0 <= i <= MaxLineChars && 0 <= lineCount <= a.Length
      invariant Scan(data[..pos]) == Progress(a[..lineCount], temp[..i])
    {
      var c := data[pos];
      ghost var p := Scan(data[..pos]);
      ScanStep(data, pos);
      if c == '\n' {
        // A newline ends the pending line: it is stored up to its first NUL.
        a[lineCount] := CStrings.UpToNul(temp[..i]);
        assert a[..lineCount + 1] == p.done + [CStrings.UpToNul(p.temp)];
        assert Scan(data[..pos + 1]) == Progress(a[..lineCount + 1], temp[..0]);
        lineCount := lineCount + 1;
        i := 0;
      } else if i < MaxLineLength - 1 {
        temp[i] := c;
        assert temp[..i + 1] == p.temp + [c];
        assert Scan(data[..pos + 1]) == Progress(a[..lineCount], temp[..i + 1]);
        i := i + 1;
      } else {
        assert Scan(data[..pos + 1]) == p;
      }
      pos := pos + 1;
    }
    assert data[..pos] == data;
  }

  /** buffer_open from the read loop on: the lines of the file go to the front of `a` and
      their number is returned. */
  method ReadLines(a: array<string>, data: string) returns (n: int)
    requires |Loaded(data)| <= a.Length
    modifies a
    ensures 1 <= n <= a.Length && a[..n] == Loaded(data)
  {
    var temp := new char[MaxLineLength];
    var lineCount, i := ReadLoop(a, temp, data);
    if i > 0 {
      // the last line has no '\n'
      a[lineCount] := CStrings.UpToNul(temp[..i]);
      lineCount := lineCount + 1;
    }
    n := lineCount;
    if n == 0 {
      a[0] := "";
      n := 1;
    }
  }

  /** After the shift of buffer_insert_line, writing slot `at` gives the old lines with the
      new one inserted at `at`. */
  lemma OpenedSlot(shifted: seq<string>, before: seq<string>, at: int, v: string)
    requires 0 <= at <= |before| && |shifted| == |before| + 1
    requires shifted[..at] == before[..at] && shifted[at + 1..] == before[at..]
    ensures shifted[at := v] == before[..at] + [v] + before[at..]
  {
    var r := shifted[at := v];
    assert forall k :: 0 <= k < at ==> r[k] == shifted[..at][k];
    assert forall k :: at < k < |r| ==> r[k] == shifted[at + 1..][k - at - 1];
  }

  /** The body of buffer_insert_line once there is room: the shift, then the copy into slot
      `at`. */
  method InsertAt(a: array<string>, at: int, n: int, v: string)
    requires 0 <= at <= n < a.Length
    modifies a
    ensures a[..n + 1] == old(a[..n])[..at] + [v] + old(a[..n])[at..]
  {
    ghost var before := a[..n];
    ghost var head, tail := a[..at], a[at..n];
    assert head == before[..at] && tail == before[at..];
    ShiftDown(a, at, n);
    ghost var shifted := a[..n + 1];
    assert shifted[..at] == a[..at] == head;
    assert shifted[at + 1..] == a[at + 1..n + 1] == tail;
    a[at] := v;
    assert a[..n + 1] == shifted[at := v];
    OpenedSlot(shifted, before, at, v);
  }

  /** The editor's buffer: `lines[..count]` are the lines, `lines.Length` is the capacity. */
  class TextBuffer {
    var lines: array<string>
    var count: int
    var filename: Option<string>
    var modified: bool

    ghost predicate Valid()
      reads this
    {
      0 <= count <= lines.Length && lines.Length >= 1
    }

    function Contents(): seq<string>
      reads this, lines
      requires Valid()
    {
      lines[..count]
    }

    /** buffer_create: one empty line, room for MAX_LINES lines, no file name, not modified. */
    constructor ()
      ensures Valid() && Contents() == [""] && lines.Length == MaxLines
      ensures filename == None && !modified
    {
      lines := new string[MaxLines](_ => "");
      count := 1;
      filename := None;
      modified := false;
    }

    /** buffer_insert_line: a copy of `line` (up to its NUL) becomes line `at`, the lines from
        `at` on move one down, and the capacity doubles first when the array is full. An `at`
        outside 0..count changes nothing. */
    method InsertLine(at: int, line: string)
      requires Valid()
      modifies this, lines
      ensures Valid() && filename == old(filename)
      ensures lines == old(lines) || fresh(lines)
      ensures at < 0 || at > old(count) ==>
                lines == old(lines) && count == old(count) && lines[..] == old(lines[..]) && modified == old(modified)
      ensures 0 <= at <= old(count) ==>
                && Contents() == old(Contents())[..at] + [CStrings.UpToNul(line)] + old(Contents())[at..]
                && modified
                && lines.Length == (if old(count) >= old(lines.Length) then 2 * old(lines.Length) else old(lines.Length))
                && (old(count) < old(lines.Length) ==> lines == old(lines))
    {
      if at < 0 || at > count {
        return;
      }
      ghost var before := lines[..count];
      var a := lines;
      if count >= a.Length {
        a := Grow(a);
        lines := a;
      }
      assert a[..count] == before;
      InsertAt(a, at, count, CStrings.UpToNul(line));
      count := count + 1;
      modified := true;
    }

    /** buffer_delete_line: line `at` goes and the lines after it move one up, in order. An
        `at` outside 0..count-1 changes nothing. */
    method DeleteLine(at: int)
      requires Valid()
      modifies lines, this
      ensures Valid() && filename == old(filename) && lines == old(lines)
      ensures at < 0 || at >= old(count) ==>
                count == old(count) && lines[..] == old(lines[..]) && modified == old(modified)
      ensures 0 <= at < old(count) ==>
                Contents() == old(Contents())[..at] + old(Contents())[at + 1..] && modified
    {
      if at < 0 || at >= count {
        return;
      }
      ghost var before := lines[..count];
      ShiftUp(lines, at, count);
      count := count - 1;
      modified := true;
      assert lines[..count] == lines[..at] + lines[at..count];
    }

    /** buffer_open. `file` is the file's contents, or None when open() fails; the name is
        kept either way. The read loop stores a line at `line_count` while its capacity check
        reads `count`, which stays 0 during the loop, so the array never grows here: the file
        must fit the current capacity. */
    method Open(name: string, file: Option<string>) returns (ok: bool)
      requires Valid()
      requires file.Some? ==> |Loaded(file.value)| <= lines.Length
      modifies this, lines
      ensures Valid() && lines == old(lines) && filename == Some(name)
      ensures ok <==> file.Some?
      ensures file.None? ==> Contents() == old(Contents()) && modified == old(modified)
      ensures file.Some? ==> Contents() == Loaded(file.value) && !modified
    {
      if file.None? {
        filename := Some(name);
        return false;
      }
      count := 0;
      count := ReadLines(lines, file.value);
      filename := Some(name);
      modified := false;
      ok := true;
    }

    /** buffer_save: with a file name and a file that can be opened for writing, writes the
        joined lines and clears `modified`; otherwise writes nothing and changes nothing.
        `canWrite` is whether open() succeeds; `written` is the new file content. */
    method Save(canWrite: bool) returns (written: Option<string>)
      requires Valid()
      modifies this
      ensures Valid() && lines == old(lines) && count == old(count) && filename == old(filename)
      ensures written == if filename.Some? && canWrite then Some(JoinLines(Contents())) else None
      ensures modified == (old(modified) && written.None?)
    {
      if filename.None? || !canWrite {
        return None;
      }
      var text := Joined(lines, count);
      written := Some(text);
      modified := false;
    }
  }

  /** The write loop of buffer_save: each line, then '\n' unless it is the last. */
  method Joined(a: array<string>, n: int) returns (text: string)
    requires 0 <= n <= a.Length
    ensures text == JoinLines(a[..n])
  {
    text := "";
    var k := 0;
    while k < n
      invariant 0 <= k <= n
      invariant text == JoinLines(a[..k]) + (if 0 < k < n then "\n" else "")
    {
      assert a[..k + 1][..k] == a[..k];
      text := text + a[k];
      if k < n - 1 {
        text := text + "\n";
      }
      k := k + 1;
    }
  }

  // The editing keys of editor_loop

  /** What the loop reads: one byte, an escape byte with the two bytes after it, or an
      escape byte whose follow-up bytes could not be read (the loop then returns). The loop
      always reads on after an escape byte, so no input yields Byte('\x1b'): an escape byte
      is always Escape or EscapeCut, and a Byte('\x1b') key in a key sequence stands for no
      input the program can receive. */
  datatype Key = Byte(c: char) | Escape(s0: char, s1: char) | EscapeCut

  const CtrlQ: char := '\U{0011}'
  const CtrlS: char := '\U{0013}'
  const Return: char := '\r'
  const Rubout: char := '\U{007F}'
  const BackspaceChar: char := '\U{0008}'

  /** isprint in the C locale. */
  predicate IsPrint(c: char) {
    ' ' <= c <= '~'
  }

  /** The lines and the cursor (column x, row y). */
  datatype Screen = Screen(lines: seq<string>, x: int, y: int)

  /** What the keys keep: there is a line, the cursor is on a line with a column that is not
      negative, and no line holds a NUL. Up and Down keep the column, so it may lie past the
      end of the new row. */
  predicate CursorOnRow(s: Screen) {
    && |s.lines| >= 1
    && 0 <= s.y < |s.lines|
    && 0 <= s.x
    && forall i :: 0 <= i < |s.lines| ==> '\0' !in s.lines[i]
  }

  /** The cursor is on a line and at most one past its last character. */
  predicate CursorInText(s: Screen) {
    CursorOnRow(s) && s.x <= |s.lines[s.y]|
  }

  /** The arrow keys of editor_loop: Up and Down change the row within the buffer and keep
      the column; Right moves up to the end of the line, Left down to column 0. */
  function Arrow(s: Screen, dir: char): (r: Screen)
    requires CursorOnRow(s)
    ensures CursorOnRow(r) && r.lines == s.lines
    ensures (dir == 'A' || dir == 'B') ==> r.x == s.x && (r.y == s.y || r.y == s.y - 1 || r.y == s.y + 1)
    ensures (dir == 'C' || dir == 'D') ==> r.y == s.y && (CursorInText(s) ==> CursorInText(r))
    ensures dir == 'C' ==> r.x == s.x || r.x == s.x + 1 <= |s.lines[s.y]|
    ensures dir !in "ABCD" ==> r == s
  {
    if dir == 'A' then (if s.y > 0 then s.(y := s.y - 1) else s)
    else if dir == 'B' then (if s.y < |s.lines| - 1 then s.(y := s.y + 1) else s)
    else if dir == 'C' then (if s.x < |s.lines[s.y]| then s.(x := s.x + 1) else s)
    else if dir == 'D' then (if s.x > 0 then s.(x := s.x - 1) else s)
    else s
  }

  /** Moving down from the end of a long line onto a shorter one leaves the column past the
      end of the new line; the next printable key then asks memmove for `len - cursor_x + 1`
      bytes, a negative count. */
  lemma DownLeavesColumnPastLine()
    ensures var s := Screen(["abc", ""], 3, 0);
            && CursorInText(s)
            && var m := Arrow(s, 'B');
            && m == Screen(["abc", ""], 3, 1)
            && !CursorInText(m)
            && |m.lines[m.y]| - m.x + 1 < 0
  {
  }

  /** The keys whose C code reads the line at the cursor column: Enter, Backspace, and a
      printable key when the line has room. With the column past the end of the line they
      read or move bytes beyond its NUL, which C leaves undefined. */
  predicate Defined(s: Screen, key: Key)
    requires CursorOnRow(s)
  {
    match key
    case Byte(c) =>
      var readsLine := c == Return || c == Rubout || c == BackspaceChar
                       || (IsPrint(c) && |s.lines[s.y]| < MaxLineChars);
      readsLine ==> s.x <= |s.lines[s.y]|
    case _ => true
  }

  /** The effect of a key that edits or moves (every key but Ctrl-Q, Ctrl-S and a cut escape). */
  function Edit(s: Screen, key: Key): (r: Screen)
    requires CursorOnRow(s) && Defined(s, key)
    ensures CursorOnRow(r)
    ensures CursorInText(s) && !(key.Escape? && key.s0 == '[' && key.s1 in "AB") ==> CursorInText(r)
  {
    var line := s.lines[s.y];
    match key
    case Byte(c) =>
      if c == Return then
        Screen(s.lines[..s.y] + [line[..s.x], line[s.x..]] + s.lines[s.y + 1..], 0, s.y + 1)
      else if c == Rubout || c == BackspaceChar then
        if s.x > 0 then Screen(s.lines[s.y := line[..s.x - 1] + line[s.x..]], s.x - 1, s.y)
        else if s.y > 0 then
          Screen(s.lines[..s.y - 1] + [s.lines[s.y - 1] + line] + s.lines[s.y + 1..], |s.lines[s.y - 1]|, s.y - 1)
        else s
      else if IsPrint(c) && |line| < MaxLineChars then
        Screen(s.lines[s.y := line[..s.x] + [c] + line[s.x..]], s.x + 1, s.y)
      else s
    case Escape(s0, s1) => if s0 == '[' then Arrow(s, s1) else s
    case EscapeCut => s
  }

  /** Whether a key sets `modified`. */
  predicate Touches(s: Screen, key: Key)
    requires CursorOnRow(s)
  {
    match key
    case Byte(c) =>
      || c == Return
      || ((c == Rubout || c == BackspaceChar) && (s.x > 0 || s.y > 0))
      || (c != Rubout && c != BackspaceChar && IsPrint(c) && |s.lines[s.y]| < MaxLineChars)
    case _ => false
  }

  /** Every key is defined while the cursor is within the text; only a byte key with the
      cursor past the end of its line can be undefined. */
  lemma DefinedWithinText(s: Screen, key: Key)
    requires CursorOnRow(s)
    ensures CursorInText(s) ==> Defined(s, key)
    ensures !Defined(s, key) ==> key.Byte? && s.x > |s.lines[s.y]|
  {
  }

  /** A defined key sets `modified` exactly when it changes the text. */
  lemma TouchesIffChanged(s: Screen, key: Key)
    requires CursorOnRow(s) && Defined(s, key)
    ensures Touches(s, key) <==> Edit(s, key).lines != s.lines
  {
  }

  /** Enter splits the line at the cursor: the two new rows concatenate to the old one, the
      rows above stay, the rows below move one down, and the cursor goes to the start of the
      new row. */
  lemma EnterSplitsLine(s: Screen)
    requires CursorInText(s)
    ensures var r := Edit(s, Byte(Return));
            && |r.lines| == |s.lines| + 1
            && r.lines[s.y] + r.lines[s.y + 1] == s.lines[s.y]
            && r.lines[..s.y] == s.lines[..s.y]
            && r.lines[s.y + 2..] == s.lines[s.y + 1..]
            && r.x == 0 && r.y == s.y + 1
  {
    var line := s.lines[s.y];
    assert line[..s.x] + line[s.x..] == line;
    var r := Edit(s, Byte(Return));
    assert r.lines[s.y + 2..] == s.lines[s.y + 1..];
  }

  /** Backspace at the start of a row undoes an Enter. */
  lemma BackspaceUndoesEnter(s: Screen)
    requires CursorInText(s)
    ensures Edit(Edit(s, Byte(Return)), Byte(Rubout)) == s
  {
    var line := s.lines[s.y];
    var r := Edit(s, Byte(Return));
    assert line[..s.x] + line[s.x..] == line;
    assert r.lines[..s.y] == s.lines[..s.y];
    assert r.lines[s.y + 2..] == s.lines[s.y + 1..];
    assert s.lines[..s.y] + [line] + s.lines[s.y + 1..] == s.lines;
  }

  /** Backspace after a typed character removes it again. */
  lemma BackspaceUndoesTyping(s: Screen, c: char)
    requires CursorInText(s) && IsPrint(c) && |s.lines[s.y]| < MaxLineChars
    ensures Edit(Edit(s, Byte(c)), Byte(BackspaceChar)) == s
  {
    var line := s.lines[s.y];
    var t := line[..s.x] + [c] + line[s.x..];
    assert t[..s.x + 1 - 1] + t[s.x + 1..] == line;
  }

  /** Joining two non-empty runs of lines puts one '\n' between their texts. */
  lemma {:induction false} JoinConcat(a: seq<string>, b: seq<string>)
    requires |a| >= 1 && |b| >= 1
    ensures JoinLines(a + b) == JoinLines(a) + "\n" + JoinLines(b)
    decreases |b|
  {
    if |b| == 1 {
      assert (a + b)[..|a + b| - 1] == a;
    } else {
      var c := b[..|b| - 1];
      JoinConcat(a, c);
      assert (a + b)[..|a + b| - 1] == a + c;
    }
  }

  /** The file text before row y, with the '\n' that ends row y-1. */
  function TextBefore(ls: seq<string>, y: nat): string
    requires y <= |ls|
  {
    if y == 0 then [] else JoinLines(ls[..y]) + "\n"
  }

  /** The file text after row y, with the '\n' that ends row y. */
  function TextAfter(ls: seq<string>, y: nat): string
    requires y < |ls|
  {
    if y == |ls| - 1 then [] else "\n" + JoinLines(ls[y + 1..])
  }

  lemma JoinFrom(ls: seq<string>, y: nat)
    requires y < |ls|
    ensures JoinLines(ls[y..]) == ls[y] + TextAfter(ls, y)
  {
    if y + 1 < |ls| {
      assert ls[y..] == [ls[y]] + ls[y + 1..];
      JoinConcat([ls[y]], ls[y + 1..]);
    } else {
      assert ls[y..] == [ls[y]];
    }
  }

  lemma JoinAt(ls: seq<string>, y: nat)
    requires 0 < y < |ls|
    ensures JoinLines(ls) == JoinLines(ls[..y]) + "\n" + JoinLines(ls[y..])
  {
    assert ls[..y] + ls[y..] == ls;
    JoinConcat(ls[..y], ls[y..]);
  }

  /** The saved text is the text before a row, the row, and the text after it. */
  lemma JoinAround(ls: seq<string>, y: nat)
    requires y < |ls|
    ensures JoinLines(ls) == TextBefore(ls, y) + ls[y] + TextAfter(ls, y)
  {
    JoinFrom(ls, y);
    if y > 0 {
      JoinAt(ls, y);
      Assoc(JoinLines(ls[..y]), "\n", ls[y] + TextAfter(ls, y));
      Assoc(TextBefore(ls, y), ls[y], TextAfter(ls, y));
    } else {
      assert ls[y..] == ls;
      assert [] + ls[y] == ls[y];
    }
  }

  /** Replacing one row replaces it in the saved text and leaves the text around it. */
  lemma ReplaceRow(ls: seq<string>, y: nat, nl: string)
    requires y < |ls|
    ensures JoinLines(ls[y := nl]) == TextBefore(ls, y) + nl + TextAfter(ls, y)
  {
    var rl := ls[y := nl];
    assert rl[..y] == ls[..y];
    assert rl[y + 1..] == ls[y + 1..];
    JoinAround(rl, y);
  }

  /** Splitting one row in two puts a '\n' between its parts in the saved text; the text
      before the second part ends with the first part and that '\n'. */
  lemma SplitRow(ls: seq<string>, y: nat, u: string, v: string)
    requires y < |ls|
    ensures var rl := ls[..y] + [u, v] + ls[y + 1..];
            && TextBefore(rl, y + 1) == TextBefore(ls, y) + u + "\n"
            && JoinLines(rl) == TextBefore(ls, y) + (u + "\n" + v) + TextAfter(ls, y)
  {
    var rl := ls[..y] + [u, v] + ls[y + 1..];
    assert rl[..y] == ls[..y];
    assert rl[y + 2..] == ls[y + 1..];
    assert TextBefore(rl, y) == TextBefore(ls, y);
    assert TextAfter(rl, y + 1) == TextAfter(ls, y);
    BeforeStep(rl, y + 1);
    JoinAround(rl, y + 1);
  }

  /** The cursor's position in the file text buffer_save would write. */
  function Offset(s: Screen): nat
    requires CursorInText(s)
  {
    |TextBefore(s.lines, s.y)| + s.x
  }

  lemma Assoc(a: string, b: string, c: string)
    ensures a + b + c == a + (b + c)
  {
  }

  lemma Regroup(b: string, l: string, m: string, a: string)
    ensures b + (l + m) + a == (b + l) + (m + a)
  {
  }

  lemma RegroupAround(b: string, l: string, k: string, m: string, a: string)
    ensures b + (l + k + m) + a == (b + l) + k + (m + a)
  {
  }

  lemma Cut(b: string, l: string, a: string, x: nat)
    requires x <= |l|
    ensures (b + l + a)[..|b| + x] == b + l[..x]
    ensures (b + l + a)[|b| + x..] == l[x..] + a
  {
    assert b + l + a == (b + l[..x]) + (l[x..] + a);
  }

  /** In terms of the saved text, Enter inserts a '\n' at the cursor and moves past it. */
  lemma EnterInsertsNewline(s: Screen)
    requires CursorInText(s)
    ensures var r := Edit(s, Byte(Return)); var t := JoinLines(s.lines); var p := Offset(s);
            && p <= |t|
            && JoinLines(r.lines) == t[..p] + "\n" + t[p..]
            && Offset(r) == p + 1
  {
    var ls := s.lines;
    var y := s.y;
    var x := s.x;
    var line := ls[y];
    var rl := ls[..y] + [line[..x], line[x..]] + ls[y + 1..];
    assert Edit(s, Byte(Return)) == Screen(rl, 0, y + 1);
    var before, after := TextBefore(ls, y), TextAfter(ls, y);
    SplitRow(ls, y, line[..x], line[x..]);
    JoinAround(ls, y);
    Cut(before, line, after, x);
    RegroupAround(before, line[..x], "\n", line[x..], after);
  }

  /** In terms of the saved text, a printable key that fits inserts itself at the cursor
      and moves past it. */
  lemma TypingInsertsChar(s: Screen, c: char)
    requires CursorInText(s) && IsPrint(c) && |s.lines[s.y]| < MaxLineChars
    ensures var r := Edit(s, Byte(c)); var t := JoinLines(s.lines); var p := Offset(s);
            && p <= |t|
            && JoinLines(r.lines) == t[..p] + [c] + t[p..]
            && Offset(r) == p + 1
  {
    var ls := s.lines;
    var y := s.y;
    var line := ls[y];
    var x := s.x;
    var nl := line[..x] + [c] + line[x..];
    assert Edit(s, Byte(c)) == Screen(ls[y := nl], x + 1, y);
    var before, after := TextBefore(ls, y), TextAfter(ls, y);
    ReplaceRow(ls, y, nl);
    JoinAround(ls, y);
    Cut(before, line, after, x);
    RegroupAround(before, line[..x], [c], line[x..], after);
  }

  lemma BackspaceInLine(s: Screen)
    requires CursorInText(s) && s.x > 0
    ensures var r := Edit(s, Byte(Rubout)); var t := JoinLines(s.lines); var p := Offset(s);
            && 0 < p <= |t|
            && JoinLines(r.lines) == t[..p - 1] + t[p..] && Offset(r) == p - 1
  {
    var ls := s.lines;
    var y := s.y;
    var x := s.x;
    var line := ls[y];
    var nl := line[..x - 1] + line[x..];
    assert Edit(s, Byte(Rubout)) == Screen(ls[y := nl], x - 1, y);
    var before, after := TextBefore(ls, y), TextAfter(ls, y);
    ReplaceRow(ls, y, nl);
    JoinAround(ls, y);
    Cut(before, line, after, x - 1);
    Cut(before, line, after, x);
    Regroup(before, line[..x - 1], line[x..], after);
  }

  lemma BeforeStep(ls: seq<string>, y: nat)
    requires 0 < y <= |ls|
    ensures TextBefore(ls, y) == TextBefore(ls, y - 1) + ls[y - 1] + "\n"
  {
    var top := ls[..y];
    JoinAround(top, y - 1);
    assert top[..y - 1] == ls[..y - 1];
  }

  lemma MergedText(ls: seq<string>, y: nat)
    requires 0 < y < |ls|
    ensures JoinLines(ls[..y - 1] + [ls[y - 1] + ls[y]] + ls[y + 1..])
            == TextBefore(ls, y - 1) + ls[y - 1] + ls[y] + TextAfter(ls, y)
  {
    var rl := ls[..y - 1] + [ls[y - 1] + ls[y]] + ls[y + 1..];
    assert rl[..y - 1] == ls[..y - 1];
    assert rl[y..] == ls[y + 1..];
    assert TextBefore(rl, y - 1) == TextBefore(ls, y - 1);
    assert TextAfter(rl, y - 1) == TextAfter(ls, y);
    JoinAround(rl, y - 1);
  }

  lemma BackspaceJoinsRows(s: Screen)
    requires CursorInText(s) && s.x == 0 && s.y > 0
    ensures var r := Edit(s, Byte(Rubout)); var t := JoinLines(s.lines); var p := Offset(s);
            && 0 < p <= |t|
            && JoinLines(r.lines) == t[..p - 1] + t[p..] && Offset(r) == p - 1
  {
    var ls := s.lines;
    var y := s.y;
    var line := ls[y];
    var prev := ls[y - 1];
    var before0, after := TextBefore(ls, y - 1), TextAfter(ls, y);
    var rl := ls[..y - 1] + [prev + line] + ls[y + 1..];
    assert Edit(s, Byte(Rubout)) == Screen(rl, |prev|, y - 1);
    assert rl[..y - 1] == ls[..y - 1];
    assert TextBefore(rl, y - 1) == before0;
    var head := before0 + prev;
    MergedText(ls, y);
    BeforeStep(ls, y);
    JoinAround(ls, y);
    Assoc(head + "\n", line, after);
    Cut(head, "\n", line + after, 0);
    Cut(head, "\n", line + after, 1);
    Assoc(head, line, after);
  }

  /** In terms of the saved text, Backspace deletes the character or line break before the
      cursor and moves onto its place; at the very start of the text it changes nothing. */
  lemma BackspaceDeletesChar(s: Screen)
    requires CursorInText(s)
    ensures var r := Edit(s, Byte(Rubout)); var t := JoinLines(s.lines); var p := Offset(s);
            && (p == 0 <==> s.x == 0 && s.y == 0)
            && (p == 0 ==> r == s)
            && p <= |t|
            && (p > 0 ==> JoinLines(r.lines) == t[..p - 1] + t[p..] && Offset(r) == p - 1)
  {
    if s.x > 0 {
      BackspaceInLine(s);
    } else if s.y > 0 {
      BackspaceJoinsRows(s);
    } else {
      JoinAround(s.lines, 0);
    }
  }

  /** A printable key never makes a line longer than its buffer holds. */
  lemma TypingStaysInBuffer(s: Screen, c: char)
    requires CursorInText(s) && |s.lines[s.y]| <= MaxLineChars && IsPrint(c)
    ensures |Edit(s, Byte(c)).lines[s.y]| <= MaxLineChars
  {
  }

  /** Joining a row onto a full row above gives more than a line buffer holds: strcat then
      writes past the end of the row's MAX_LINE_LENGTH bytes. */
  lemma MergeOverflowsLineBuffer()
    ensures var s := Screen([seq(MaxLineChars, _ => 'a'), "b"], 0, 1);
            && CursorInText(s)
            && |Edit(s, Byte(Rubout)).lines[0]| == MaxLineChars + 1
  {
    var s := Screen([seq(MaxLineChars, _ => 'a'), "b"], 0, 1);
    assert '\0' !in s.lines[0];
  }

  /** Enter at (x, y). */
  method SplitLine(b: TextBuffer, x: int, y: int) returns (x': int, y': int)
    requires b.Valid() && CursorInText(Screen(b.Contents(), x, y))
    modifies b, b.lines
    ensures b.Valid() && b.filename == old(b.filename) && b.modified
    ensures b.lines == old(b.lines) || fresh(b.lines)
    ensures Screen(b.Contents(), x', y') == Edit(Screen(old(b.Contents()), x, y), Byte(Return))
  {
    ghost var s := Screen(b.Contents(), x, y);
    var line := b.lines[y];
    // The text right of the cursor moves to a new line; the current line is cut at the cursor.
    var rest := line[x..];
    b.lines[y] := line[..x];
    ghost var mid := b.Contents();
    assert mid == s.lines[y := line[..x]];
    NulFree(rest);
    b.InsertLine(y + 1, rest);
    x', y' := 0, y + 1;
    assert b.Contents() == mid[..y + 1] + [rest] + mid[y + 1..];
    assert mid[..y + 1] == s.lines[..y] + [line[..x]];
    assert mid[y + 1..] == s.lines[y + 1..];
  }

  /** Backspace (DEL or '\b') at (x, y). */
  method RubOut(b: TextBuffer, x: int, y: int) returns (x': int, y': int)
    requires b.Valid() && CursorInText(Screen(b.Contents(), x, y))
    modifies b, b.lines
    ensures b.Valid() && b.filename == old(b.filename)
    ensures b.lines == old(b.lines) || fresh(b.lines)
    ensures b.modified == (old(b.modified) || x > 0 || y > 0)
    ensures Screen(b.Contents(), x', y') == Edit(Screen(old(b.Contents()), x, y), Byte(Rubout))
  {
    ghost var s := Screen(b.Contents(), x, y);
    x', y' := x, y;
    if x > 0 {
      var line := b.lines[y];
      // The character left of the cursor goes; the rest of the line shifts left.
      b.lines[y] := line[..x - 1] + line[x..];
      x' := x - 1;
      b.modified := true;
    } else if y > 0 {
      var prevLen := |b.lines[y - 1]|;
      // At the start of a line, the line joins the end of the one above.
      b.lines[y - 1] := b.lines[y - 1] + b.lines[y];
      ghost var mid := b.Contents();
      b.DeleteLine(y);
      y' := y - 1;
      x' := prevLen;
      assert mid[..y] == s.lines[..y - 1] + [s.lines[y - 1] + s.lines[y]];
      assert mid[y + 1..] == s.lines[y + 1..];
    }
  }

  /** A printable key c at (x, y): inserted when the line has room. */
  method TypeChar(b: TextBuffer, x: int, y: int, c: char) returns (x': int, y': int)
    requires b.Valid() && CursorOnRow(Screen(b.Contents(), x, y))
    requires IsPrint(c) && Defined(Screen(b.Contents(), x, y), Byte(c))
    modifies b.lines, b
    ensures b.Valid() && b.filename == old(b.filename) && b.lines == old(b.lines) && b.count == old(b.count)
    ensures b.modified == (old(b.modified) || |old(b.Contents())[y]| < MaxLineChars)
    ensures Screen(b.Contents(), x', y') == Edit(Screen(old(b.Contents()), x, y), Byte(c))
  {
    x', y' := x, y;
    var line := b.lines[y];
    var len := |line|;
    if len < MaxLineLength - 1 {
      // The tail of the line shifts right to make room for c at the cursor.
      b.lines[y] := line[..x] + [c] + line[x..];
      x' := x + 1;
      b.modified := true;
    }
  }

  /** An arrow key: ESC '[' followed by A (up), B (down), C (right) or D (left). */
  method MoveCursor(b: TextBuffer, x: int, y: int, dir: char) returns (x': int, y': int)
    requires b.Valid() && CursorOnRow(Screen(b.Contents(), x, y))
    ensures Screen(b.Contents(), x', y') == Arrow(Screen(b.Contents(), x, y), dir)
  {
    x', y' := x, y;
    if dir == 'A' {
      if y > 0 {
        y' := y - 1;
      }
    } else if dir == 'B' {
      if y < b.count - 1 {
        y' := y + 1;
      }
    } else if dir == 'C' {
      if x < |b.lines[y]| {
        x' := x + 1;
      }
    } else if dir == 'D' {
      if x > 0 {
        x' := x - 1;
      }
    }
  }

  /** Whether a key writes the file: Ctrl-S always, Ctrl-Q when the buffer is modified and
      the answer to the prompt is y or Y. */
  predicate Saves(key: Key, modified: bool, answer: char) {
    key == Byte(CtrlS) || (key == Byte(CtrlQ) && modified && (answer == 'y' || answer == 'Y'))
  }

  /** One pass of editor_loop after the screen is drawn. `answer` is the byte read after the
      Ctrl-Q prompt and `canWrite` whether the file opens for writing. */
  method Step(b: TextBuffer, x: int, y: int, key: Key, answer: char, canWrite: bool)
    returns (x': int, y': int, quit: bool, written: Option<string>)
    requires b.Valid() && CursorOnRow(Screen(b.Contents(), x, y))
    requires Defined(Screen(b.Contents(), x, y), key)
    modifies b, b.lines
    ensures b.Valid() && b.filename == old(b.filename)
    ensures b.lines == old(b.lines) || fresh(b.lines)
    ensures CursorOnRow(Screen(b.Contents(), x', y'))
    ensures quit <==> key == Byte(CtrlQ) || key == EscapeCut
    ensures written == if Saves(key, old(b.modified), answer) && b.filename.Some? && canWrite
                       then Some(JoinLines(b.Contents())) else None
    ensures key == Byte(CtrlQ) || key == Byte(CtrlS) || key == EscapeCut ==>
              && Screen(b.Contents(), x', y') == Screen(old(b.Contents()), x, y)
              && b.modified == (old(b.modified) && written.None?)
    ensures key != Byte(CtrlQ) && key != Byte(CtrlS) && key != EscapeCut ==>
              && Screen(b.Contents(), x', y') == Edit(Screen(old(b.Contents()), x, y), key)
              && b.modified == (old(b.modified) || Touches(Screen(old(b.Contents()), x, y), key))
  {
    x', y', quit, written := x, y, false, None;
    match key {
      case EscapeCut =>
        quit := true;
      case Escape(s0, s1) =>
        if s0 == '[' {
          x', y' := MoveCursor(b, x, y, s1);
        }
      case Byte(c) =>
        if c == CtrlQ {
          if b.modified && (answer == 'y' || answer == 'Y') {
            written := b.Save(canWrite);
          }
          quit := true;
        } else if c == CtrlS {
          written := b.Save(canWrite);
        } else if c == Return {
          x', y' := SplitLine(b, x, y);
        } else if c == Rubout || c == BackspaceChar {
          x', y' := RubOut(b, x, y);
        } else if IsPrint(c) {
          x', y' := TypeChar(b, x, y, c);
        }
    }
  }

  /** A key that ends the loop: Ctrl-Q, or an escape whose follow-up bytes could not be read. */
  predicate Quits(key: Key) {
    key == Byte(CtrlQ) || key == EscapeCut
  }

  /** The editor's state between two keys: the lines and cursor, and the modified flag. */
  datatype Session = Session(screen: Screen, modified: bool)

  /** Where a run of keys left the session, and the texts it wrote, in order. */
  datatype Replayed = Replayed(session: Session, saves: seq<string>)

  /** One pass of editor_loop on the session: the new session and the text written, if any.
      `named` is whether the buffer has a file name, `canWrite` whether the file opens for
      writing. */
  ghost function Pass(s: Session, key: Key, answer: char, named: bool, canWrite: bool): (r: (Session, Option<string>))
    requires CursorOnRow(s.screen) && Defined(s.screen, key)
    ensures CursorOnRow(r.0.screen)
    ensures r.1.Some? <==> Saves(key, s.modified, answer) && named && canWrite
    ensures r.1.Some? ==> r.1.value == JoinLines(s.screen.lines) && r.0 == Session(s.screen, false)
    ensures !Quits(key) && key != Byte(CtrlS) ==> r.0.screen == Edit(s.screen, key)
  {
    if key == Byte(CtrlQ) || key == Byte(CtrlS) || key == EscapeCut then
      var w := if Saves(key, s.modified, answer) && named && canWrite then Some(JoinLines(s.screen.lines)) else None;
      (Session(s.screen, s.modified && w.None?), w)
    else (Session(Edit(s.screen, key), s.modified || Touches(s.screen, key)), None)
  }

  /** The keys run in order from session s, with the texts written; None when a key comes
      whose effect C leaves undefined. */
  ghost function Replay(s: Session, keys: seq<Key>, answer: char, named: bool, canWrite: bool): (r: Option<Replayed>)
    requires CursorOnRow(s.screen)
    ensures r.Some? ==> CursorOnRow(r.value.session.screen)
    decreases |keys|
  {
    if keys == [] then Some(Replayed(s, []))
    else
      match Replay(s, keys[..|keys| - 1], answer, named, canWrite)
      case None => None
      case Some(run) =>
        var key := keys[|keys| - 1];
        if !Defined(run.session.screen, key) then None
        else
          var (next, w) := Pass(run.session, key, answer, named, canWrite);
          Some(Replayed(next, run.saves + (if w.Some? then [w.value] else [])))
  }

  /** Replaying one more key extends the run by one pass. */
  lemma ReplaySnoc(s: Session, keys: seq<Key>, key: Key, answer: char, named: bool, canWrite: bool)
    requires CursorOnRow(s.screen) && Replay(s, keys, answer, named, canWrite).Some?
    requires Defined(Replay(s, keys, answer, named, canWrite).value.session.screen, key)
    ensures var run := Replay(s, keys, answer, named, canWrite).value;
            var p := Pass(run.session, key, answer, named, canWrite);
            Replay(s, keys + [key], answer, named, canWrite)
              == Some(Replayed(p.0, run.saves + (if p.1.Some? then [p.1.value] else [])))
  {
    var more := keys + [key];
    assert more[..|more| - 1] == keys && more[|more| - 1] == key;
  }

  /** Ctrl-S after any run writes the text on the screen at that point, clears the modified
      flag and leaves the lines and cursor alone. */
  lemma SaveKeyWritesText(s: Session, keys: seq<Key>, answer: char)
    requires CursorOnRow(s.screen) && Replay(s, keys, answer, true, true).Some?
    ensures var run := Replay(s, keys, answer, true, true).value;
            Replay(s, keys + [Byte(CtrlS)], answer, true, true)
              == Some(Replayed(Session(run.session.screen, false), run.saves + [JoinLines(run.session.screen.lines)]))
  {
    var run := Replay(s, keys, answer, true, true).value;
    assert Defined(run.session.screen, Byte(CtrlS));
    ReplaySnoc(s, keys, Byte(CtrlS), answer, true, true);
    assert Pass(run.session, Byte(CtrlS), answer, true, true)
             == (Session(run.session.screen, false), Some(JoinLines(run.session.screen.lines)));
  }

  /** Typing "hi" into a new buffer and pressing Ctrl-S writes "hi" and leaves the cursor after
      the 'i'. */
  lemma TypeAndSave(answer: char)
    ensures Replay(Session(Screen([""], 0, 0), false), [Byte('h'), Byte('i'), Byte(CtrlS)], answer, true, true)
              == Some(Replayed(Session(Screen(["hi"], 2, 0), false), ["hi"]))
  {
    var s0 := Session(Screen([""], 0, 0), false);
    var k := [Byte('h'), Byte('i'), Byte(CtrlS)];
    var s1 := Session(Screen(["h"], 1, 0), true);
    assert Edit(s0.screen, Byte('h')) == s1.screen by {
      assert ""[..0] + ['h'] + ""[0..] == "h";
    }
    assert Pass(s0, Byte('h'), answer, true, true) == (s1, None);
    assert Replay(s0, [], answer, true, true) == Some(Replayed(s0, []));
    assert Defined(s0.screen, Byte('h'));
    ReplaySnoc(s0, [], Byte('h'), answer, true, true);
    assert [] + [Byte('h')] == [Byte('h')];
    var none: seq<string> := [];
    assert none + [] == none;
    assert Replay(s0, [Byte('h')], answer, true, true) == Some(Replayed(s1, none));
    var s2 := Session(Screen(["hi"], 2, 0), true);
    assert Edit(s1.screen, Byte('i')) == s2.screen by {
      assert "h"[..1] + ['i'] + "h"[1..] == "hi";
    }
    assert Pass(s1, Byte('i'), answer, true, true) == (s2, None);
    assert Defined(s1.screen, Byte('i'));
    ReplaySnoc(s0, [Byte('h')], Byte('i'), answer, true, true);
    assert [Byte('h')] + [Byte('i')] == k[..2];
    assert Replay(s0, k[..2], answer, true, true) == Some(Replayed(s2, none));
    SaveKeyWritesText(s0, k[..2], answer);
    assert k[..2] + [Byte(CtrlS)] == k;
    assert JoinLines(["hi"]) == "hi";
    assert none + ["hi"] == ["hi"];
  }

  /** One turn of editor_loop, seen as one more key of a replay: Step, and the text it wrote
      added to those written before. */
  method RunKey(b: TextBuffer, x: int, y: int, key: Key, answer: char, canWrite: bool,
                ghost start: Session, ghost done: seq<Key>, saves: seq<string>)
    returns (x': int, y': int, quit: bool, saves': seq<string>)
    requires b.Valid() && CursorOnRow(Screen(b.Contents(), x, y)) && Defined(Screen(b.Contents(), x, y), key)
    requires CursorOnRow(start.screen)
    requires Replay(start, done, answer, b.filename.Some?, canWrite)
               == Some(Replayed(Session(Screen(b.Contents(), x, y), b.modified), saves))
    modifies b, b.lines
    ensures b.Valid() && b.filename == old(b.filename)
    ensures b.lines == old(b.lines) || fresh(b.lines)
    ensures CursorOnRow(Screen(b.Contents(), x', y'))
    ensures quit <==> Quits(key)
    ensures Replay(start, done + [key], answer, b.filename.Some?, canWrite)
              == Some(Replayed(Session(Screen(b.Contents(), x', y'), b.modified), saves'))
  {
    ghost var before := Session(Screen(b.Contents(), x, y), b.modified);
    ghost var named := b.filename.Some?;
    assert Replay(start, done, answer, named, canWrite).value == Replayed(before, saves);
    var written;
    x', y', quit, written := Step(b, x, y, key, answer, canWrite);
    saves' := if written.Some? then saves + [written.value] else saves;
    assert named == b.filename.Some? && saves + [] == saves;
    assert Pass(before, key, answer, b.filename.Some?, canWrite)
             == (Session(Screen(b.Contents(), x', y'), b.modified), written);
    ReplaySnoc(start, done, key, answer, b.filename.Some?, canWrite);
  }

  /** editor_loop over the keys typed, with the cursor starting at (0, 0): it runs them in
      order and stops after the first Ctrl-Q or cut escape sequence, or before the first key
      whose effect C leaves undefined. `used` is how many keys ran; the lines, cursor and
      modified flag it leaves and the texts it writes (`saves`, in order) are what replaying
      those keys gives. */
  method EditorLoop(b: TextBuffer, keys: seq<Key>, answer: char, canWrite: bool)
    returns (x: int, y: int, used: nat, saves: seq<string>)
    requires b.Valid() && b.count >= 1
    requires forall i :: 0 <= i < b.count ==> '\0' !in b.lines[i]
    modifies b, b.lines
    ensures b.Valid() && b.filename == old(b.filename)
    ensures CursorOnRow(Screen(b.Contents(), x, y))
    ensures used <= |keys|
    ensures forall i :: 0 <= i < used - 1 ==> !Quits(keys[i])
    ensures used < |keys| ==>
              (used > 0 && Quits(keys[used - 1])) || !Defined(Screen(b.Contents(), x, y), keys[used])
    ensures Replay(Session(Screen(old(b.Contents()), 0, 0), old(b.modified)), keys[..used], answer, b.filename.Some?, canWrite)
              == Some(Replayed(Session(Screen(b.Contents(), x, y), b.modified), saves))
  {
    x, y, used, saves := 0, 0, 0, [];
    ghost var start := Session(Screen(b.Contents(), 0, 0), b.modified);
    assert CursorOnRow(start.screen);
    var quit := false;
    while used < |keys| && !quit && Defined(Screen(b.Contents(), x, y), keys[used])
      invariant b.Valid() && b.filename == old(b.filename)
      invariant b.lines == old(b.lines) || fresh(b.lines)
      invariant CursorOnRow(Screen(b.Contents(), x, y))
      invariant used <= |keys|
      invariant forall i :: 0 <= i < used - 1 ==> !Quits(keys[i])
      invariant quit <==> used > 0 && Quits(keys[used - 1])
      invariant Replay(start, keys[..used], answer, b.filename.Some?, canWrite)
                  == Some(Replayed(Session(Screen(b.Contents(), x, y), b.modified), saves))
    {
      assert forall i :: 0 <= i < used ==> !Quits(keys[i]) by {
        assert used > 0 ==> !Quits(keys[used - 1]);
      }
      x, y, quit, saves := RunKey(b, x, y, keys[used], answer, canWrite, start, keys[..used], saves);
      assert keys[..used] + [keys[used]] == keys[..used + 1];
      used := used + 1;
    }
  }
}
