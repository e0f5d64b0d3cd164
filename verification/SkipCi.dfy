/** The decision to skip CI: every changed file is on the ignore list or directly in a directory
    on it. */
module SkipCi {
  import opened Text

  /** The visible children of each directory, by name. */
  type Dirs = map<string, seq<string>>

  // The expansion of the glob for all children; an empty directory leaves the pattern itself.
  function Glob(dir: string, names: seq<string>): (r: seq<string>)
    ensures r != []
  {
    if names == [] then [dir + "/*"] else seq(|names|, i requires 0 <= i < |names| => dir + "/" + names[i])
  }

  predicate FieldBlank(c: char)
  {
    c == ' ' || c == '\t'
  }

  function TrimField(line: string): string
  {
    DropTrailing(line[Span(line, FieldBlank)..], FieldBlank)
  }

  function TrimAll(lines: seq<string>): seq<string>
  {
    if lines == [] then [] else [TrimField(lines[0])] + TrimAll(lines[1..])
  }

  /** `while read -r`: only lines that end in a newline, without surrounding blanks. */
  function ReadLines(text: string): seq<string>
  {
    var pieces := Split(text, '\n');
    TrimAll(pieces[..|pieces| - 1])
  }

  predicate Covers(dirs: Dirs, entry: string, file: string)
  {
    file == entry || (entry in dirs && file in Glob(entry, dirs[entry]))
  }

  ghost predicate AllCovered(dirs: Dirs, ignore: seq<string>, changed: seq<string>)
  {
    forall f <- changed :: exists g :: g in ignore && Covers(dirs, g, f)
  }

  method SkipCi(dirs: Dirs, ignoreList: string, changedFiles: string) returns (code: int)
    ensures code == if AllCovered(dirs, ReadLines(ignoreList), ReadLines(changedFiles)) then 0 else 1
  {
    hide ReadLines, Glob;
    var changed, ignore := ReadLines(changedFiles), ReadLines(ignoreList);
    label files:
    for i := 0 to |changed|
      invariant forall k :: 0 <= k < i ==> exists g :: g in ignore && Covers(dirs, g, changed[k])
    {
      var changedFile := changed[i];
      for j := 0 to |ignore|
        invariant forall k :: 0 <= k < j ==> !Covers(dirs, ignore[k], changedFile)
      {
        var skipFor := ignore[j];
        if skipFor in dirs {
          var inDir := Glob(skipFor, dirs[skipFor]);
          for k := 0 to |inDir|
            invariant forall m :: 0 <= m < k ==> inDir[m] != changedFile
          {
            if inDir[k] == changedFile {
              assert skipFor in ignore && Covers(dirs, skipFor, changedFile);
              continue files;
            }
          }
        }
        if skipFor == changedFile {
          assert skipFor in ignore && Covers(dirs, skipFor, changedFile);
          continue files;
        }
      }
      assert changed[i] in changed;
      return 1;
    }
    return 0;
  }

  /** Order and repetition in either list do not matter, a longer ignore list never un-skips, and
      a shorter change list never does. */
  lemma OnlySetsMatter(
      dirs: Dirs, ignore: seq<string>, ignore': seq<string>, changed: seq<string>, changed': seq<string>)
    requires forall g <- ignore :: g in ignore'
    requires forall f <- changed' :: f in changed
    ensures AllCovered(dirs, ignore, changed) ==> AllCovered(dirs, ignore', changed')
  {
  }

  /** What an entry covers: itself, and if it is a directory its children, or the pattern itself if
      it has none. */
  lemma CoversIff(dirs: Dirs, entry: string, file: string)
    ensures Covers(dirs, entry, file) <==>
      || file == entry
      || (entry in dirs && dirs[entry] == [] && file == entry + "/" + "*")
      || (entry in dirs && exists n :: n in dirs[entry] && file == entry + "/" + n)
  {
    if entry in dirs {
      var names := dirs[entry];
      assert entry + "/*" == entry + "/" + "*";
      if file in Glob(entry, names) && names != [] {
        var i :| 0 <= i < |names| && Glob(entry, names)[i] == file;
        assert names[i] in names;
      }
      if n :| n in names && file == entry + "/" + n {
        var i :| 0 <= i < |names| && names[i] == n;
        assert Glob(entry, names)[i] == file;
      }
    }
  }

  /** A directory on the list covers its direct children and nothing deeper: a path below it is
      covered exactly when the rest of the path is the name of a child. */
  lemma DirectChildrenOnly(dirs: Dirs, dir: string, rest: string)
    requires dir in dirs && dirs[dir] != []
    requires forall n <- dirs[dir] :: '/' !in n
    ensures Covers(dirs, dir, dir + "/" + rest) <==> rest in dirs[dir]
    ensures '/' in rest ==> !Covers(dirs, dir, dir + "/" + rest)
  {
    var names, file := dirs[dir], dir + "/" + rest;
    assert |file| > |dir|;
    forall n: string | dir + "/" + n == file ensures n == rest {
      TakeDrop(dir + "/", n);
      TakeDrop(dir + "/", rest);
    }
    if rest in names {
      var i :| 0 <= i < |names| && names[i] == rest;
      assert Glob(dir, names)[i] == file;
    }
    if file in Glob(dir, names) {
      var i :| 0 <= i < |names| && Glob(dir, names)[i] == file;
      assert names[i] in names;
    }
  }

  // ---------- lists as files ----------

  /** A path that a line can carry: one line, no outer blanks. */
  predicate LinePath(path: string)
  {
    && '\n' !in path
    && (path != "" ==> path[0] !in {' ', '\t'} && path[|path| - 1] !in {' ', '\t'})
  }

  /** A line of the file: a path with blanks around it. */
  datatype Padded = Padded(left: string, path: string, right: string)
  {
    predicate Valid()
    {
      LinePath(path) && (forall c <- left :: c in {' ', '\t'}) && forall c <- right :: c in {' ', '\t'}
    }

    function Text(): string
    {
      left + path + right
    }
  }

  function FileText(lines: seq<Padded>): string
  {
    if lines == [] then "" else lines[0].Text() + ['\n'] + FileText(lines[1..])
  }

  function PathsOf(lines: seq<Padded>): (r: seq<string>)
    ensures |r| == |lines|
  {
    seq(|lines|, i requires 0 <= i < |lines| => lines[i].path)
  }

  lemma TrimPadded(l: Padded)
    requires l.Valid()
    ensures TrimField(l.Text()) == l.path && '\n' !in l.Text()
  {
    BlanksAreFieldBlanks(l);
    hide FieldBlank;
    TrimIs(l.left, l.path, l.right, FieldBlank);
    BlanksAreOneLine(l.left);
    BlanksAreOneLine(l.right);
  }

  lemma BlanksAreFieldBlanks(l: Padded)
    requires l.Valid()
    ensures (forall c <- l.left :: FieldBlank(c)) && forall c <- l.right :: FieldBlank(c)
    ensures l.path != "" ==> !FieldBlank(l.path[0]) && !FieldBlank(l.path[|l.path| - 1])
  {
  }

  lemma BlanksAreOneLine(blanks: string)
    requires forall c <- blanks :: FieldBlank(c)
    ensures '\n' !in blanks
  {
  }

  lemma TrimAllCons(line: string, rest: seq<string>)
    ensures TrimAll([line] + rest) == [TrimField(line)] + TrimAll(rest)
  {
    assert ([line] + rest)[1..] == rest;
  }

  /** Reading a file of lines gives back exactly their paths, in order, whatever blanks surround
      them. */
  lemma {:induction false} ReadBack(lines: seq<Padded>)
    requires forall l <- lines :: l.Valid()
    ensures ReadLines(FileText(lines)) == PathsOf(lines)
  {
    if lines == [] {
      assert PathsOf(lines) == [];
    } else {
      assert lines[0] in lines;
      var text, rest := lines[0].Text(), FileText(lines[1..]);
      TrimPadded(lines[0]);
      ReadBack(lines[1..]);
      hide Padded.Text, Padded.Valid, TrimField;
      SplitOfPrefix(text, '\n', rest);
      var pieces := Split(rest, '\n');
      hide Split;
      assert ([text] + pieces)[..|pieces|] == [text] + pieces[..|pieces| - 1];
      TrimAllCons(text, pieces[..|pieces| - 1]);
      assert PathsOf(lines) == [lines[0].path] + PathsOf(lines[1..]);
    }
  }

  ghost predicate SomeCovers(dirs: Dirs, ignore: seq<Padded>, file: string)
  {
    exists g :: g in ignore && Covers(dirs, g.path, file)
  }

  lemma SomeCoversIff(dirs: Dirs, ignore: seq<Padded>, file: string)
    ensures SomeCovers(dirs, ignore, file) <==> exists g :: g in PathsOf(ignore) && Covers(dirs, g, file)
  {
    hide Covers;
    var gs := PathsOf(ignore);
    if g :| g in ignore && Covers(dirs, g.path, file) {
      var k :| 0 <= k < |ignore| && ignore[k] == g;
      assert gs[k] in gs && Covers(dirs, gs[k], file);
    }
    if g :| g in gs && Covers(dirs, g, file) {
      var k :| 0 <= k < |gs| && gs[k] == g;
      assert ignore[k] in ignore && Covers(dirs, ignore[k].path, file);
    }
  }

  /** On files of lines the decision is about the paths: the run is skipped if and only if every
      changed path is an entry of the ignore list or directly in a directory on it. */
  lemma SkipIff(dirs: Dirs, ignore: seq<Padded>, changed: seq<Padded>)
    requires (forall l <- ignore :: l.Valid()) && forall l <- changed :: l.Valid()
    ensures AllCovered(dirs, ReadLines(FileText(ignore)), ReadLines(FileText(changed)))
       <==> forall c <- changed :: SomeCovers(dirs, ignore, c.path)
  {
    ReadBack(ignore);
    ReadBack(changed);
    hide Covers, ReadLines, FileText, Padded.Valid, SomeCovers;
    var cs := PathsOf(changed);
    forall i | 0 <= i < |changed|
      ensures cs[i] == changed[i].path && changed[i] in changed && cs[i] in cs
      ensures SomeCovers(dirs, ignore, cs[i]) <==> exists g :: g in PathsOf(ignore) && Covers(dirs, g, cs[i])
    {
      SomeCoversIff(dirs, ignore, cs[i]);
    }
  }

  // ---------- a last line without newline ----------

  function ExtendLast(pieces: seq<string>, more: string): seq<string>
    requires |pieces| > 0
  {
    pieces[..|pieces| - 1] + [pieces[|pieces| - 1] + more]
  }

  lemma ExtendLastTail(first: string, rest: seq<string>, more: string)
    requires |rest| > 0
    ensures ExtendLast([first] + rest, more) == [first] + ExtendLast(rest, more)
  {
  }

  lemma SplitUnfolds(s: string, rest: seq<string>)
    requires s != "" && rest == Split(s[1..], '\n')
    ensures Split(s, '\n') == if s[0] == '\n' then [""] + rest else [[s[0]] + rest[0]] + rest[1..]
  {
  }

  lemma {:induction false} SplitAppend(a: string, b: string)
    requires '\n' !in b
    ensures Split(a + b, '\n') == ExtendLast(Split(a, '\n'), b)
  {
    if a == "" {
      SplitOfPrefix(b, '\n', "");
      assert a + b == b;
    } else {
      hide Split, ExtendLast;
      SplitAppend(a[1..], b);
      TailOfSum(a, b);
      var s := Split(a[1..], '\n');
      SplitUnfolds(a, s);
      SplitUnfolds(a + b, ExtendLast(s, b));
      ExtendLastCons(a[0], s, b);
    }
  }

  lemma ExtendLastCons(c: char, s: seq<string>, b: string)
    requires |s| > 0
    ensures var t := ExtendLast(s, b);
      && |t| > 0 && [""] + t == ExtendLast([""] + s, b)
      && [[c] + t[0]] + t[1..] == ExtendLast([[c] + s[0]] + s[1..], b)
  {
    ExtendLastTail("", s, b);
    if |s| == 1 {
      assert s[1..] == [] && [[c] + s[0]] + [] == [[c] + s[0]];
      Assoc([c], s[0], b);
      assert ExtendLast(s, b) == [s[0] + b];
    } else {
      assert s == [s[0]] + s[1..];
      ExtendLastTail(s[0], s[1..], b);
      ExtendLastTail([c] + s[0], s[1..], b);
    }
  }

  /** A last line without its newline is not read at all: the change it names is never checked. */
  lemma UnterminatedLineIsIgnored(dirs: Dirs, ignore: seq<string>, text: string, last: string)
    requires '\n' !in last
    ensures ReadLines(text + last) == ReadLines(text)
    ensures AllCovered(dirs, ignore, ReadLines(text + last)) <==> AllCovered(dirs, ignore, ReadLines(text))
  {
    hide AllCovered, Split;
    SplitAppend(text, last);
    var s := Split(text, '\n');
    TakeDrop(s[..|s| - 1], [s[|s| - 1] + last]);
  }
}
