/** scripts/utils.py: `command`, which splits a command line into an argument vector,
    and the part of `find_terraform_directories` that turns what `find ./infra -name *.tf`
    printed into the sorted list of directories holding `.tf` files. The working-directory
    changes and the `find` process itself are not modelled: the decoded standard output
    of the scan is the parameter `stdout`. */
module ScriptUtils {
  import opened Collections
  import opened Strings

  /** A non-empty run of non-whitespace characters. */
  predicate IsWord(w: string) {
    w != [] && forall i :: 0 <= i < |w| ==> !IsSpace(w[i])
  }

  /** Length of the run of non-whitespace characters that starts `s`. */
  function WordLength(s: string): (n: nat)
    ensures n <= |s|
    ensures forall i :: 0 <= i < n ==> !IsSpace(s[i])
    ensures n == |s| || IsSpace(s[n])
  {
    if s == [] || IsSpace(s[0]) then 0 else 1 + WordLength(s[1..])
  }

  /** `sep.join(parts)` */
  function Join(parts: seq<string>, sep: char): (s: string) {
    if parts == [] then []
    else if |parts| == 1 then parts[0]
    else parts[0] + [sep] + Join(parts[1..], sep)
  }

  /** `command`: `str.split()` without a separator, which cuts the text at every run of
      whitespace and drops empty pieces. */
  function Command(s: string): (r: seq<string>)
    ensures forall i :: 0 <= i < |r| ==> IsWord(r[i])
    decreases |s|
  {
    if s == [] then []
    else if IsSpace(s[0]) then Command(s[1..])
    else
      var n := WordLength(s);
      [s[..n]] + Command(s[n..])
  }

  lemma CommandOfWord(w: string, t: string)
    requires IsWord(w)
    requires t == [] || IsSpace(t[0])
    ensures Command(w + t) == [w] + Command(t)
  {
    var s := w + t;
    var n := WordLength(s);
    assert forall i :: 0 <= i < |w| ==> s[i] == w[i];
    assert |w| < |s| ==> s[|w|] == t[0];
    assert n == |w|;
    assert s[..n] == w && s[n..] == t;
  }

  /** Joining words with single spaces and splitting the line again gives the words back:
      `command` recovers the argument vector of a command line written out plainly. */
  lemma {:induction false} CommandJoin(ws: seq<string>)
    requires forall i :: 0 <= i < |ws| ==> IsWord(ws[i])
    ensures Command(Join(ws, ' ')) == ws
  {
    if |ws| == 1 {
      CommandOfWord(ws[0], []);
      assert ws[0] + [] == ws[0];
    } else if |ws| > 1 {
      var rest := Join(ws[1..], ' ');
      assert Join(ws, ' ') == ws[0] + ([' '] + rest);
      CommandOfWord(ws[0], [' '] + rest);
      assert ([' '] + rest)[1..] == rest;
      CommandJoin(ws[1..]);
      assert ws == [ws[0]] + ws[1..];
    }
  }

  /** Text made of whitespace only has no arguments. */
  lemma {:induction false} CommandOfSpaces(s: string)
    requires forall i :: 0 <= i < |s| ==> IsSpace(s[i])
    ensures Command(s) == []
    decreases |s|
  {
    if s != [] {
      CommandOfSpaces(s[1..]);
    }
  }

  /** A whitespace character always separates arguments: what comes before it and what
      comes after it split independently. */
  lemma {:induction false} CommandAtSpace(a: string, c: char, b: string)
    requires IsSpace(c)
    ensures Command(a + [c] + b) == Command(a) + Command(b)
    decreases |a|
  {
    var s := a + [c] + b;
    if a == [] {
      assert s == [c] + b;
      assert s[1..] == b;
    } else if IsSpace(a[0]) {
      assert s[1..] == a[1..] + [c] + b;
      CommandAtSpace(a[1..], c, b);
    } else {
      var w, rest := a[..WordLength(a)], a[WordLength(a)..];
      assert a == w + rest && s == w + (rest + [c] + b);
      CommandOfWord(w, rest);
      CommandOfWord(w, rest + [c] + b);
      CommandAtSpace(rest, c, b);
    }
  }

  /** The command line find_terraform_directories runs splits into four arguments. */
  lemma FindCommandLine()
    ensures Command("find ./infra -name *.tf") == ["find", "./infra", "-name", "*.tf"]
  {
    var ws := ["find", "./infra", "-name", "*.tf"];
    assert Join(ws[3..], ' ') == "*.tf";
    assert Join(ws[2..], ' ') == "-name *.tf";
    assert Join(ws[1..], ' ') == "./infra -name *.tf";
    assert Join(ws, ' ') == "find ./infra -name *.tf";
    CommandJoin(ws);
  }

  /** `str.rstrip(chars)`: drops the longest suffix made of characters `strip` accepts. */
  function RStrip(s: string, strip: char -> bool): (r: string)
    ensures |r| <= |s| && r == s[..|r|]
    ensures r == [] || !strip(r[|r| - 1])
    ensures forall i :: |r| <= i < |s| ==> strip(s[i])
  {
    if s == [] || !strip(s[|s| - 1]) then s else RStrip(s[..|s| - 1], strip)
  }

  /** `str.split(sep)` with a one-character separator: the pieces between separators,
      empty ones included, so there is always at least one piece. */
  function Split(s: string, sep: char): (r: seq<string>)
    ensures |r| >= 1
    ensures forall i :: 0 <= i < |r| ==> sep !in r[i]
    ensures Join(r, sep) == s
  {
    if s == [] then [[]]
    else
      var rest := Split(s[1..], sep);
      assert s == [s[0]] + s[1..];
      if s[0] == sep then
        [[]] + rest
      else
        JoinCons(s[0], rest, sep);
        [[s[0]] + rest[0]] + rest[1..]
  }

  lemma JoinCons(c: char, parts: seq<string>, sep: char)
    requires |parts| >= 1
    ensures Join([[c] + parts[0]] + parts[1..], sep) == [c] + Join(parts, sep)
  {
    var ps := [[c] + parts[0]] + parts[1..];
    assert ps[1..] == parts[1..];
  }

  lemma {:induction false} SplitPrefix(p: string, t: string, sep: char)
    requires sep !in p
    ensures Split(p + t, sep) == [p + Split(t, sep)[0]] + Split(t, sep)[1..]
  {
    if p != [] {
      var s, st := p + t, Split(t, sep);
      assert s[0] == p[0] != sep;
      assert s[1..] == p[1..] + t;
      assert sep !in p[1..];
      SplitPrefix(p[1..], t, sep);
      var rest := Split(s[1..], sep);
      assert rest[0] == p[1..] + st[0] && rest[1..] == st[1..];
      assert Split(s, sep) == [[s[0]] + rest[0]] + rest[1..];
      assert [p[0]] + (p[1..] + st[0]) == p + st[0];
    } else {
      var st := Split(t, sep);
      assert p + t == t && p + st[0] == st[0];
      assert st == [st[0]] + st[1..];
    }
  }

  /** Splitting a joined list of separator-free pieces gives the pieces back. */
  lemma {:induction false} SplitJoin(parts: seq<string>, sep: char)
    requires |parts| >= 1
    requires forall i :: 0 <= i < |parts| ==> sep !in parts[i]
    ensures Split(Join(parts, sep), sep) == parts
  {
    if |parts| == 1 {
      SplitPrefix(parts[0], [], sep);
      assert parts[0] + [] == parts[0];
    } else {
      var rest := Join(parts[1..], sep);
      assert Join(parts, sep) == parts[0] + ([sep] + rest);
      SplitPrefix(parts[0], [sep] + rest, sep);
      assert ([sep] + rest)[1..] == rest;
      SplitJoin(parts[1..], sep);
      assert Split([sep] + rest, sep) == [[]] + parts[1..];
      assert parts[0] + [] == parts[0];
      assert parts == [parts[0]] + parts[1..];
    }
  }

  /** The last piece is empty only when the text is empty or ends with the separator. */
  lemma {:induction false} SplitLastPiece(s: string, sep: char)
    ensures Split(s, sep)[|Split(s, sep)| - 1] == [] ==> s == [] || s[|s| - 1] == sep
  {
    if s != [] {
      SplitLastPiece(s[1..], sep);
    }
  }

  predicate IsSlash(c: char) { c == '/' }

  /** `p.rfind('/') + 1`: the length of `p` up to and including its last slash, 0 when
      there is none. */
  function AfterLastSlash(p: string): (n: nat)
    ensures n <= |p|
    ensures n > 0 ==> p[n - 1] == '/'
    ensures forall i :: n <= i < |p| ==> p[i] != '/'
  {
    if p == [] then 0
    else if p[|p| - 1] == '/' then |p|
    else AfterLastSlash(p[..|p| - 1])
  }

  /** `os.path.dirname` on POSIX: the text before the last slash, with the trailing slashes
      of that head dropped unless it consists of slashes only (the root). */
  function Dirname(p: string): (r: string)
    ensures |r| <= AfterLastSlash(p) && r == p[..|r|]
    ensures '/' !in p ==> r == []
    ensures '/' in p ==> r != []
    ensures forall i :: |r| <= i < AfterLastSlash(p) ==> p[i] == '/'
    ensures r == [] || r[|r| - 1] != '/' || forall i :: 0 <= i < |r| ==> r[i] == '/'
    ensures (forall i :: 0 <= i < AfterLastSlash(p) ==> p[i] == '/') ==> r == p[..AfterLastSlash(p)]
  {
    var n := AfterLastSlash(p);
    var head := p[..n];
    assert '/' in p ==> n > 0 by {
      if '/' in p {
        var k :| 0 <= k < |p| && p[k] == '/';
      }
    }
    if head != [] && exists i :: 0 <= i < |head| && head[i] != '/' then
      var r := RStrip(head, IsSlash);
      assert r != [] by {
        var i :| 0 <= i < |head| && head[i] != '/';
      }
      r
    else head
  }

  /** The directory part of `dir/name` is `dir`, for a file name without slashes and a
      directory that does not end in one. */
  lemma DirnameOfChild(dir: string, name: string)
    requires dir != [] && dir[|dir| - 1] != '/'
    requires '/' !in name
    ensures Dirname(dir + "/" + name) == dir
  {
    var p := dir + "/" + name;
    var n := AfterLastSlash(p);
    assert p[|dir|] == '/';
    assert n == |dir| + 1;
    var head := p[..n];
    assert head == dir + "/";
    assert head[|dir| - 1] != '/';
    var r := RStrip(head, IsSlash);
    assert |r| == |dir|;
  }

  /** `exclude_dirs`: paths containing one of these are skipped. */
  const ExcludeDirs: seq<string> := [".terraform"]

  /** `any(excluded in file for excluded in exclude_dirs)`: the path contains
      ".terraform" somewhere. */
  predicate Excluded(line: string)
    ensures Excluded(line) <==> exists i: nat :: OccursAt(line, ".terraform", i)
  {
    ContainsIff(line, ".terraform");
    assert ".terraform" in ExcludeDirs;
    exists e :: e in ExcludeDirs && Contains(line, e)
  }

  predicate Kept(line: string) { !Excluded(line) }

  /** The file list: `stdout.rstrip().split(sep='\n')`. */
  function ScanLines(stdout: string): (r: seq<string>)
    ensures |r| >= 1
    ensures forall i :: 0 <= i < |r| ==> '\n' !in r[i]
    ensures Join(r, '\n') == RStrip(stdout, IsSpace)
  {
    Split(RStrip(stdout, IsSpace), '\n')
  }

  /** Right-stripping first means that output ending in newlines (as `find`'s does) yields
      no empty last line, as long as it holds anything but whitespace. */
  lemma NoTrailingEmptyLine(stdout: string)
    requires exists i :: 0 <= i < |stdout| && !IsSpace(stdout[i])
    ensures ScanLines(stdout)[|ScanLines(stdout)| - 1] != []
  {
    var s := RStrip(stdout, IsSpace);
    var i :| 0 <= i < |stdout| && !IsSpace(stdout[i]);
    assert i < |s|;
    SplitLastPiece(s, '\n');
  }

  /** `os.path.dirname(file) for file in lines` */
  function DirnamesOf(lines: seq<string>): (r: seq<string>)
    ensures forall d :: d in r <==> exists l :: l in lines && Dirname(l) == d
  {
    if lines == [] then []
    else
      assert lines == [lines[0]] + lines[1..];
      [Dirname(lines[0])] + DirnamesOf(lines[1..])
  }

  /** The set comprehension and `sorted`: the directories of the kept lines, each once,
      in ascending order. A Python set has no order of its own; `Dedupe` stands for it,
      and `DirectoriesAre` shows that the sorted result does not depend on that choice. */
  function Directories(lines: seq<string>): (r: seq<string>)
    ensures Ascending(r)
    ensures forall d :: d in r <==> exists l :: l in lines && !Excluded(l) && Dirname(l) == d
  {
    var unique := Dedupe(DirnamesOf(Filter(lines, Kept)));
    SortSetAscending(unique);
    SortStrings(unique)
  }

  /** find_terraform_directories, from the scan's output on. */
  function FindTerraformDirectories(stdout: string): (r: seq<string>)
    ensures Ascending(r)
    ensures forall d :: d in r <==> exists l :: l in ScanLines(stdout) && !Excluded(l) && Dirname(l) == d
  {
    Directories(ScanLines(stdout))
  }

  /** A line that contains `.terraform` anywhere changes nothing in the result. */
  lemma ExcludedLineIgnored(before: seq<string>, line: string, after: seq<string>)
    requires Excluded(line)
    ensures Directories(before + [line] + after) == Directories(before + after)
  {
    var a := Directories(before + [line] + after);
    var b := Directories(before + after);
    forall d ensures d in a <==> d in b {
      if d in a {
        var l :| l in before + [line] + after && !Excluded(l) && Dirname(l) == d;
        assert l in before + after;
      }
      if d in b {
        var l :| l in before + after && !Excluded(l) && Dirname(l) == d;
        assert l in before + [line] + after;
      }
    }
    AscendingUnique(a, b);
  }

  /** However many kept files share a directory, it is listed exactly once. */
  lemma DirectoryListedOnce(lines: seq<string>, line: string)
    requires line in lines && !Excluded(line)
    ensures exists i :: 0 <= i < |Directories(lines)| && Directories(lines)[i] == Dirname(line)
    ensures forall i, j :: 0 <= i < j < |Directories(lines)| ==> Directories(lines)[i] != Directories(lines)[j]
  {
    var r := Directories(lines);
    assert Dirname(line) in r;
  }

  /** An empty or all-whitespace scan gives one empty directory name, not an empty list:
      the stripped text splits into the single line "", whose dirname is "". */
  lemma EmptyScanGivesEmptyName(stdout: string)
    requires forall i :: 0 <= i < |stdout| ==> IsSpace(stdout[i])
    ensures FindTerraformDirectories(stdout) == [""]
  {
    assert RStrip(stdout, IsSpace) == [];
    assert ScanLines(stdout) == [""];
    assert !Contains("", ".terraform");
    assert !Excluded("");
    assert Dirname("") == "";
    var r := FindTerraformDirectories(stdout);
    AscendingUnique(r, [""]);
  }

  /** A path in which `.te` never occurs holds no `.terraform` and is kept. */
  lemma KeptWithoutDotTe(line: string)
    requires forall i :: 0 <= i < |line| - 2 ==> !(line[i] == '.' && line[i + 1] == 't' && line[i + 2] == 'e')
    ensures !Excluded(line)
  {
    ContainsIff(line, ".terraform");
    forall i: nat ensures !OccursAt(line, ".terraform", i) {
      if i + 10 <= |line| {
        var w := line[i..i + 10];
        assert w[0] == line[i] && w[1] == line[i + 1] && w[2] == line[i + 2];
      }
    }
  }

  lemma {:induction false} JoinEndsWithLast(parts: seq<string>, sep: char)
    requires |parts| >= 1
    ensures |parts[|parts| - 1]| <= |Join(parts, sep)|
    ensures Join(parts, sep)[|Join(parts, sep)| - |parts[|parts| - 1]|..] == parts[|parts| - 1]
  {
    if |parts| > 1 {
      JoinEndsWithLast(parts[1..], sep);
      assert parts[1..][|parts[1..]| - 1] == parts[|parts| - 1];
    }
  }

  /** `find` prints every path on a line of its own; reading that output back gives the
      paths, as long as the last one does not end in whitespace (which `rstrip` would eat). */
  lemma ScanOfFindOutput(paths: seq<string>)
    requires |paths| >= 1
    requires forall i :: 0 <= i < |paths| ==> '\n' !in paths[i]
    requires var last := paths[|paths| - 1]; last != [] && !IsSpace(last[|last| - 1])
    ensures ScanLines(Join(paths, '\n') + "\n") == paths
  {
    var joined := Join(paths, '\n');
    var last := paths[|paths| - 1];
    JoinEndsWithLast(paths, '\n');
    assert joined[|joined| - 1] == last[|last| - 1];
    var out := joined + "\n";
    var s := RStrip(out, IsSpace);
    assert out[|joined| - 1] == joined[|joined| - 1];
    assert |s| == |joined|;
    assert s == joined;
    SplitJoin(paths, '\n');
  }

  /** The result is determined by which directories have a kept file: any strictly
      ascending list of exactly those directories is it. */
  lemma DirectoriesAre(lines: seq<string>, dirs: seq<string>)
    requires Ascending(dirs)
    requires forall l :: l in lines && !Excluded(l) ==> Dirname(l) in dirs
    requires forall d :: d in dirs ==> exists l :: l in lines && !Excluded(l) && Dirname(l) == d
    ensures Directories(lines) == dirs
  {
    var r := Directories(lines);
    forall d ensures d in r <==> d in dirs {
      if d in r {
        var l :| l in lines && !Excluded(l) && Dirname(l) == d;
      }
    }
    AscendingUnique(r, dirs);
  }

  /** A file `name` directly inside `dir`, whose path has no ".te" in it, is kept and
      contributes `dir`. */
  lemma KeptFile(dir: string, name: string, p: string)
    requires p == dir + "/" + name
    requires dir != [] && dir[|dir| - 1] != '/' && '/' !in name
    requires forall i :: 0 <= i < |p| - 2 ==> !(p[i] == '.' && p[i + 1] == 't' && p[i + 2] == 'e')
    ensures !Excluded(p) && Dirname(p) == dir
  {
    KeptWithoutDotTe(p);
    DirnameOfChild(dir, name);
  }

  /** Two kept files in one directory and one in a second, later directory, plus an
      excluded file: the result names the two directories once each, in order. */
  lemma TwoDirectories(a1: string, a2: string, b1: string, bc: string, da: string, db: string)
    requires !Excluded(a1) && !Excluded(a2) && !Excluded(b1) && Excluded(bc)
    requires Dirname(a1) == da && Dirname(a2) == da && Dirname(b1) == db
    requires Below(da, db)
    ensures Directories([a1, a2, b1, bc]) == [da, db]
  {
    var lines := [a1, a2, b1, bc];
    assert a1 in lines && b1 in lines;
    DirectoriesAre(lines, [da, db]);
  }
}
