/** The certificate archive: one loop prints crt-list lines that name files by index, another
    prints those files. */
module Certs {
  import opened Text
  import opened Ttar
  import opened CrtList
  import Decimal

  datatype Conflict = ClientCaTwice | RevocationsTwice

  datatype Rendered = Output(text: string) | Aborted(conflict: Conflict)

  function PemBlock(pem: Pem): string
  {
    match pem
    case NoPem => ""
    case Whole(text) => text
    case KeyPair(chain, key) => Strip(chain) + "\n" + Strip(key)
  }

  // ---------- the members of the archive ----------

  /** The files of entry i: its certificate, then its client CA and revocation list if given. */
  function EntryFiles(dir: Dir, i: nat, e: Entry): seq<Member>
  {
    [Member(FilePath(dir, Cert, i), PemBlock(e.pem))]
      + ((if e.clientCa.Some? then [Member(FilePath(dir, ClientCa, i), e.clientCa.value)] else [])
      + (if e.revocations.Some? then [Member(FilePath(dir, Revocations, i), e.revocations.value)] else []))
  }

  function Files(dir: Dir, entries: seq<Entry>, from: nat): seq<Member>
  {
    if entries == [] then [] else EntryFiles(dir, from, entries[0]) + Files(dir, entries[1..], from + 1)
  }

  /** The first n crt-list lines. */
  function LineText(dir: Dir, entries: seq<Entry>, n: nat): string
    requires n <= |entries|
  {
    if n == 0 then "" else LineText(dir, entries, n - 1) + (Line(dir, n - 1, entries[n - 1]) + "\n")
  }

  function CrtListText(dir: Dir, entries: seq<Entry>, ext: bool): string
  {
    LineText(dir, entries, |entries|) + if ext then "\n#OPTIONAL_EXT_CERTS" else ""
  }

  function Members(dir: Dir, entries: seq<Entry>, ext: bool): seq<Member>
  {
    [Member(dir + "crt-list", CrtListText(dir, entries, ext))] + Files(dir, entries, 0)
  }

  /** The files of ssl_pem, numbered on their own from zero. */
  function PemFiles(dir: Dir, pems: seq<Pem>, from: nat): seq<Member>
  {
    if pems == [] then []
    else [Member(FilePath(dir, Cert, from), PemBlock(pems[0]))] + PemFiles(dir, pems[1..], from + 1)
  }

  /** The last of these files runs on over the line between the two halves of the template. */
  function Gapped(ms: seq<Member>): (r: seq<Member>)
    ensures |r| == |ms|
    ensures forall i :: 0 <= i < |ms| ==>
      r[i] == Member(ms[i].path, if i + 1 < |ms| then ms[i].content else ms[i].content + "\n")
  {
    if ms == [] then []
    else
      var last := ms[|ms| - 1];
      ms[..|ms| - 1] + [Member(last.path, last.content + "\n")]
  }

  function AllMembers(dir: Dir, pems: seq<Pem>, entries: Option<seq<Entry>>, ext: bool): seq<Member>
  {
    Gapped(PemFiles(dir, pems, 0)) + if entries.Some? then Members(dir, entries.value, ext) else []
  }

  /** The rendered template; an ssl_pem that is absent prints as an empty one does. */
  function Template(dir: Dir, h: Header, pems: seq<Pem>, entries: Option<seq<Entry>>, ext: bool): string
  {
    Archive(h, if pems == [] then "\n" else "", AllMembers(dir, pems, entries, ext), "\n")
  }

  // ---------- rendering ----------

  /** A setting given both globally and in an entry; the client CA is looked at first. */
  function ConflictOf(e: Entry, globalCa: bool, globalCrl: bool): Option<Conflict>
  {
    if e.clientCa.Some? && globalCa then Some(ClientCaTwice)
    else if e.revocations.Some? && globalCrl then Some(RevocationsTwice)
    else None
  }

  ghost predicate NoConflictBefore(entries: seq<Entry>, globalCa: bool, globalCrl: bool, n: nat)
  {
    n <= |entries| && forall i :: 0 <= i < n ==>
      !(entries[i].clientCa.Some? && globalCa) && !(entries[i].revocations.Some? && globalCrl)
  }

  /** Entry i is the first to give a setting that is also given globally; a client CA given twice is
      reported before a revocation list given twice. */
  ghost predicate FirstConflict(entries: seq<Entry>, globalCa: bool, globalCrl: bool, i: nat, conflict: Conflict)
  {
    && i < |entries| && NoConflictBefore(entries, globalCa, globalCrl, i)
    && match conflict
       case ClientCaTwice => entries[i].clientCa.Some? && globalCa
       case RevocationsTwice =>
         entries[i].revocations.Some? && globalCrl && !(entries[i].clientCa.Some? && globalCa)
  }

  /** The first loop: the crt-list lines, aborting on the first setting given twice. */
  method PrintLines(dir: Dir, entries: seq<Entry>, globalCa: bool, globalCrl: bool) returns (r: Rendered)
    ensures r.Output? <==> NoConflictBefore(entries, globalCa, globalCrl, |entries|)
    ensures r.Output? ==> r.text == LineText(dir, entries, |entries|)
    ensures r.Aborted? ==> exists i: nat :: FirstConflict(entries, globalCa, globalCrl, i, r.conflict)
  {
    hide Line;
    var out := "";
    for i := 0 to |entries|
      invariant NoConflictBefore(entries, globalCa, globalCrl, i)
      invariant out == LineText(dir, entries, i)
    {
      var conflict := ConflictOf(entries[i], globalCa, globalCrl);
      if conflict.Some? {
        assert FirstConflict(entries, globalCa, globalCrl, i, conflict.value);
        return Aborted(conflict.value);
      }
      var line := PrintLine(dir, i, entries[i]);
      out := out + (line + "\n");
    }
    return Output(out);
  }

  lemma {:induction false} BlocksAppend(h: Header, a: seq<Member>, b: seq<Member>)
    ensures Blocks(h, a + b) == Blocks(h, a) + Blocks(h, b)
  {
    if a == [] {
      assert a + b == b;
    } else {
      BlocksAppend(h, a[1..], b);
      TailOfSum(a, b);
      Assoc(Block(h, a[0]), Blocks(h, a[1..]), Blocks(h, b));
    }
  }

  lemma {:induction false} FilesSnoc(dir: Dir, entries: seq<Entry>, e: Entry, from: nat)
    ensures Files(dir, entries + [e], from) == Files(dir, entries, from) + EntryFiles(dir, from + |entries|, e)
  {
    hide EntryFiles;
    if entries == [] {
      assert entries + [e] == [e];
      assert Files(dir, [e][1..], from + 1) == [];
      assert EntryFiles(dir, from, e) + [] == [] + EntryFiles(dir, from, e);
    } else {
      FilesSnoc(dir, entries[1..], e, from + 1);
      assert (entries + [e])[1..] == entries[1..] + [e];
      var last := EntryFiles(dir, from + |entries|, e);
      Assoc(EntryFiles(dir, from, entries[0]), Files(dir, entries[1..], from + 1), last);
    }
  }

  method PrintBlock(h: Header, out: string, path: string, content: string, ghost done: seq<Member>) returns (r: string)
    requires out == Blocks(h, done)
    ensures r == Blocks(h, done + [Member(path, content)])
  {
    var m := Member(path, content);
    BlocksAppend(h, done, [m]);
    assert Blocks(h, [m]) == Block(h, m) + Blocks(h, [m][1..]) == Block(h, m);
    r := out + ("\n" + (h + (path + ("\n" + content + "\n"))));
  }

  method PrintEntryFiles(dir: Dir, h: Header, text: string, i: nat, e: Entry, ghost done: seq<Member>)
    returns (out: string)
    requires text == Blocks(h, done)
    ensures out == Blocks(h, done + EntryFiles(dir, i, e))
  {
    ghost var files := [Member(FilePath(dir, Cert, i), PemBlock(e.pem))];
    out := PrintBlock(h, text, FilePath(dir, Cert, i), PemBlock(e.pem), done);
    if e.clientCa.Some? {
      out := PrintBlock(h, out, FilePath(dir, ClientCa, i), e.clientCa.value, done + files);
      Assoc(done, files, [Member(FilePath(dir, ClientCa, i), e.clientCa.value)]);
      files := files + [Member(FilePath(dir, ClientCa, i), e.clientCa.value)];
    }
    if e.revocations.Some? {
      out := PrintBlock(h, out, FilePath(dir, Revocations, i), e.revocations.value, done + files);
      Assoc(done, files, [Member(FilePath(dir, Revocations, i), e.revocations.value)]);
      files := files + [Member(FilePath(dir, Revocations, i), e.revocations.value)];
    }
    assert files == EntryFiles(dir, i, e);
  }

  /** The second loop: the files the lines name. */
  method PrintFiles(dir: Dir, h: Header, entries: seq<Entry>) returns (out: string)
    ensures out == Blocks(h, Files(dir, entries, 0))
  {
    out := "";
    for i := 0 to |entries|
      invariant out == Blocks(h, Files(dir, entries[..i], 0))
    {
      out := PrintEntryFiles(dir, h, out, i, entries[i], Files(dir, entries[..i], 0));
      FilesSnoc(dir, entries[..i], entries[i], 0);
      assert entries[..i + 1] == entries[..i] + [entries[i]];
    }
    assert entries[..|entries|] == entries;
  }

  lemma {:induction false} PemFilesSnoc(dir: Dir, pems: seq<Pem>, p: Pem, from: nat)
    ensures PemFiles(dir, pems + [p], from)
      == PemFiles(dir, pems, from) + [Member(FilePath(dir, Cert, from + |pems|), PemBlock(p))]
  {
    hide FilePath, PemBlock;
    if pems != [] {
      PemFilesSnoc(dir, pems[1..], p, from + 1);
      assert (pems + [p])[1..] == pems[1..] + [p];
    }
  }

  /** The loop over ssl_pem. */
  method PrintPems(dir: Dir, h: Header, pems: seq<Pem>) returns (out: string)
    ensures out == Blocks(h, PemFiles(dir, pems, 0))
  {
    out := "";
    ghost var done: seq<Member> := [];
    for i := 0 to |pems|
      invariant done == PemFiles(dir, pems[..i], 0)
      invariant out == Blocks(h, done)
    {
      var pemBlock := PemBlock(pems[i]);
      out := PrintBlock(h, out, FilePath(dir, Cert, i), pemBlock, done);
      done := done + [Member(FilePath(dir, Cert, i), pemBlock)];
      PemFilesSnoc(dir, pems[..i], pems[i], 0);
      assert pems[..i + 1] == pems[..i] + [pems[i]];
    }
    assert pems[..|pems|] == pems;
  }

  /** The crt-list and the files it names. */
  method PrintCrtList(dir: Dir, h: Header, entries: seq<Entry>, ext: bool, globalCa: bool, globalCrl: bool)
    returns (r: Rendered)
    ensures r.Output? <==> NoConflictBefore(entries, globalCa, globalCrl, |entries|)
    ensures r.Output? ==> r.text == Blocks(h, Members(dir, entries, ext))
    ensures r.Aborted? ==> exists i: nat :: FirstConflict(entries, globalCa, globalCrl, i, r.conflict)
  {
    r := PrintLines(dir, entries, globalCa, globalCrl);
    if r.Aborted? {
      return;
    }
    var content := r.text + if ext then "\n#OPTIONAL_EXT_CERTS" else "";
    var crtList := Member(dir + "crt-list", content);
    assert Blocks(h, []) == "";
    var head := PrintBlock(h, "", dir + "crt-list", content, []);
    assert [] + [crtList] == [crtList];
    var files := PrintFiles(dir, h, entries);
    BlocksAppend(h, [crtList], Files(dir, entries, 0));
    r := Output(head + files);
  }

  lemma {:induction false} BlocksOfGapped(h: Header, ms: seq<Member>)
    requires ms != []
    ensures Blocks(h, Gapped(ms)) == Blocks(h, ms) + "\n"
  {
    var front, last := ms[..|ms| - 1], ms[|ms| - 1];
    var long := Member(last.path, last.content + "\n");
    assert ms == front + [last] && Gapped(ms) == front + [long];
    BlocksAppend(h, front, [last]);
    BlocksAppend(h, front, [long]);
    BlocksOfOne(h, last);
    BlocksOfOne(h, long);
    BlockWithGap(h, last);
    Assoc(Blocks(h, front), Block(h, last), "\n");
  }

  lemma BlocksOfOne(h: Header, m: Member)
    ensures Blocks(h, [m]) == Block(h, m)
  {
    assert Blocks(h, [m]) == Block(h, m) + Blocks(h, [m][1..]) == Block(h, m) + "";
  }

  lemma BlockWithGap(h: Header, m: Member)
    ensures Block(h, Member(m.path, m.content + "\n")) == Block(h, m) + "\n"
  {
    var body := "\n" + m.content + "\n";
    assert "\n" + (m.content + "\n") + "\n" == body + "\n";
    Assoc(m.path, body, "\n");
    Assoc(h, m.path + body, "\n");
    Assoc("\n", h + (m.path + body), "\n");
  }

  /** The two halves with the line between them are the template. */
  lemma HalvesAreTemplate(dir: Dir, h: Header, pems: seq<Pem>, entries: Option<seq<Entry>>, ext: bool)
    ensures var second := if entries.Some? then Members(dir, entries.value, ext) else [];
      Blocks(h, PemFiles(dir, pems, 0)) + "\n" + Blocks(h, second) + "\n" == Template(dir, h, pems, entries, ext)
  {
    hide Blocks, Members;
    var first := PemFiles(dir, pems, 0);
    var second := if entries.Some? then Members(dir, entries.value, ext) else [];
    BlocksAppend(h, Gapped(first), second);
    if pems == [] {
      NoBlocks(h);
      assert Gapped(first) + second == second;
      Assoc("\n", Blocks(h, second), "\n");
      assert "" + "\n" == "\n";
    } else {
      BlocksOfGapped(h, first);
      var text := Blocks(h, Gapped(first)) + Blocks(h, second) + "\n";
      assert "" + text == text;
    }
  }

  lemma NoBlocks(h: Header)
    ensures Blocks(h, []) == ""
  {
  }

  /** The whole template: aborts on the first setting given both globally and in an entry, and
      otherwise prints the archive. */
  method Render(
      dir: Dir, h: Header, sslPem: Option<seq<Pem>>, crtList: Option<seq<Entry>>, ext: bool,
      globalCa: bool, globalCrl: bool) returns (r: Rendered)
    ensures r.Output? <==> crtList.Some? ==> NoConflictBefore(crtList.value, globalCa, globalCrl, |crtList.value|)
    ensures r.Output? ==> r.text == Template(dir, h, if sslPem.Some? then sslPem.value else [], crtList, ext)
    ensures r.Aborted? ==>
      crtList.Some? && exists i: nat :: FirstConflict(crtList.value, globalCa, globalCrl, i, r.conflict)
  {
    hide Template, Blocks, Members, FirstConflict, NoConflictBefore;
    var pems := if sslPem.Some? then sslPem.value else [];
    NoBlocks(h);
    var out := "";
    if sslPem.Some? {
      out := PrintPems(dir, h, sslPem.value);
    }
    out := out + "\n";
    if crtList.Some? {
      r := PrintCrtList(dir, h, crtList.value, ext, globalCa, globalCrl);
      if r.Aborted? {
        return;
      }
      out := out + r.text;
    } else {
      assert out + "" == out;
    }
    HalvesAreTemplate(dir, h, pems, crtList, ext);
    r := Output(out + "\n");
  }

  // ---------- the two loops agree ----------

  /** The files a read line refers to. */
  function References(p: Parsed): seq<string>
  {
    [p.path] + SettingPaths(p.settings)
  }

  function SettingPaths(settings: seq<(string, string)>): seq<string>
  {
    if settings == [] then []
    else
      (if settings[0].0 == Name(CaFile) || settings[0].0 == Name(CrlFile) then [settings[0].1] else [])
        + SettingPaths(settings[1..])
  }

  function Paths(ms: seq<Member>): seq<string>
  {
    seq(|ms|, k requires 0 <= k < |ms| => ms[k].path)
  }

  lemma PathKeyword(k: Keyword)
    ensures Name(k) == Name(CaFile) <==> k == CaFile
    ensures Name(k) == Name(CrlFile) <==> k == CrlFile
  {
    if Name(k) == Name(CaFile) {
      NameInjective(k, CaFile);
    }
    if Name(k) == Name(CrlFile) {
      NameInjective(k, CrlFile);
    }
  }

  lemma {:induction false} NoPathsBeyond(opts: seq<Opt>)
    requires forall o <- opts :: o.keyword != CaFile && o.keyword != CrlFile
    ensures SettingPaths(Present(opts)) == []
  {
    if opts != [] {
      NoPathsBeyond(opts[1..]);
      assert opts[0] in opts;
      PathKeyword(opts[0].keyword);
      if opts[0].value.Some? {
        assert Present(opts)[1..] == Present(opts[1..]);
      } else {
        assert Present(opts) == Present(opts[1..]);
      }
    }
  }

  lemma PathsOfOption(o: Opt, rest: seq<Opt>)
    ensures SettingPaths(Present([o] + rest))
      == (if o.value.Some? && (o.keyword == CaFile || o.keyword == CrlFile) then [o.value.value] else [])
         + SettingPaths(Present(rest))
  {
    assert ([o] + rest)[1..] == rest;
    PathKeyword(o.keyword);
    if o.value.Some? {
      assert Present([o] + rest)[1..] == Present(rest);
    } else {
      assert Present([o] + rest) == Present(rest);
    }
  }

  lemma PathsOfOptions(opts: seq<Opt>)
    requires |opts| >= 2 && opts[0].keyword == CaFile && opts[1].keyword == CrlFile && DistinctKeywords(opts)
    ensures SettingPaths(Present(opts))
      == (if opts[0].value.Some? then [opts[0].value.value] else [])
         + (if opts[1].value.Some? then [opts[1].value.value] else [])
  {
    var o0, o1, rest := opts[0], opts[1], opts[2..];
    NoPathsBeyond(rest);
    assert opts == [o0] + ([o1] + rest);
    PathsOfOption(o1, rest);
    PathsOfOption(o0, [o1] + rest);
  }

  /** Reading line i yields, in order, exactly the paths of the files printed for entry i. */
  lemma LineNamesItsFiles(dir: Dir, i: nat, e: Entry)
    requires PlainEntry(e)
    ensures References(Decode(Line(dir, i, e))) == Paths(EntryFiles(dir, i, e))
  {
    hide Line, Decode, FilePath, Present, SettingPaths;
    DecodeOfLine(dir, i, e);
    KeywordsAreDistinct(dir, i, e);
    PathsOfOptions(Options(dir, i, e));
    var files, ca, crl := EntryFiles(dir, i, e), FilePath(dir, ClientCa, i), FilePath(dir, Revocations, i);
    var settingPaths := SettingPaths(Present(Options(dir, i, e)));
    assert settingPaths == (if e.clientCa.Some? then [ca] else []) + (if e.revocations.Some? then [crl] else []);
    assert Paths(files) == [FilePath(dir, Cert, i)] + settingPaths;
  }

  // ---------- no path is printed twice by the crt-list half ----------

  predicate DistinctPaths(ms: seq<Member>)
  {
    forall i, j :: 0 <= i < j < |ms| ==> ms[i].path != ms[j].path
  }

  predicate IndexFrom(dir: Dir, path: string, from: nat, to: nat)
  {
    exists i :: from <= i < to && PathOf(dir, path, i)
  }

  predicate PathOf(dir: Dir, path: string, i: nat)
  {
    path == FilePath(dir, Cert, i) || path == FilePath(dir, ClientCa, i) || path == FilePath(dir, Revocations, i)
  }

  lemma {:induction false} FilesHaveIndex(dir: Dir, entries: seq<Entry>, from: nat)
    ensures forall m <- Files(dir, entries, from) :: IndexFrom(dir, m.path, from, from + |entries|)
  {
    if entries != [] {
      FilesHaveIndex(dir, entries[1..], from + 1);
      forall m | m in Files(dir, entries, from) ensures IndexFrom(dir, m.path, from, from + |entries|) {
        if m in EntryFiles(dir, from, entries[0]) {
          assert PathOf(dir, m.path, from);
        } else {
          assert m in Files(dir, entries[1..], from + 1);
        }
      }
    }
  }

  function KindOf(dir: Dir, path: string, i: nat): Kind
  {
    if path == FilePath(dir, Cert, i) then Cert
    else if path == FilePath(dir, ClientCa, i) then ClientCa
    else Revocations
  }

  lemma PathOfOneIndex(dir: Dir, path: string, i: nat, j: nat)
    requires PathOf(dir, path, i) && PathOf(dir, path, j)
    ensures i == j
  {
    var a := KindOf(dir, path, i);
    var b := KindOf(dir, path, j);
    FilePathInjective(dir, a, i, b, j);
  }

  lemma EntryPathsDiffer(dir: Dir, i: nat, e: Entry)
    ensures DistinctPaths(EntryFiles(dir, i, e))
  {
    KindsDiffer(dir, Cert, ClientCa, i);
    KindsDiffer(dir, Cert, Revocations, i);
    KindsDiffer(dir, ClientCa, Revocations, i);
  }

  lemma KindsDiffer(dir: Dir, a: Kind, b: Kind, i: nat)
    requires a != b
    ensures FilePath(dir, a, i) != FilePath(dir, b, i)
  {
    if FilePath(dir, a, i) == FilePath(dir, b, i) {
      FilePathInjective(dir, a, i, b, i);
    }
  }

  lemma {:induction false} FilesAreDistinct(dir: Dir, entries: seq<Entry>, from: nat)
    ensures DistinctPaths(Files(dir, entries, from))
  {
    if entries != [] {
      var head, tail := EntryFiles(dir, from, entries[0]), Files(dir, entries[1..], from + 1);
      FilesAreDistinct(dir, entries[1..], from + 1);
      EntryPathsDiffer(dir, from, entries[0]);
      FilesHaveIndex(dir, entries[1..], from + 1);
      forall a, b | a in head && b in tail ensures a.path != b.path {
        assert PathOf(dir, a.path, from);
        var j :| from + 1 <= j < from + |entries| && PathOf(dir, b.path, j);
        if a.path == b.path {
          PathOfOneIndex(dir, a.path, from, j);
        }
      }
      forall i, j | 0 <= i < j < |head + tail| ensures (head + tail)[i].path != (head + tail)[j].path {
        if i < |head| && j >= |head| {
          assert head[i] in head && tail[j - |head|] in tail;
        }
      }
    }
  }

  lemma FilePathShape(dir: Dir, kind: Kind, i: nat)
    ensures GoodPath(FilePath(dir, kind, i)) && FilePath(dir, kind, i) != dir + "crt-list"
  {
    FilePathIsPlain(dir, kind, i);
    var path := FilePath(dir, kind, i);
    assert path[|path| - 1] == 'm';
    var other := dir + "crt-list";
    assert other[|other| - 1] == 't';
    assert forall c <- path :: CrtList.PlainChar(c);
  }

  lemma FilesAreGood(dir: Dir, entries: seq<Entry>)
    ensures forall m <- Files(dir, entries, 0) :: GoodPath(m.path) && m.path != dir + "crt-list"
  {
    FilesHaveIndex(dir, entries, 0);
    forall m | m in Files(dir, entries, 0) ensures GoodPath(m.path) && m.path != dir + "crt-list" {
      var i :| 0 <= i < |entries| && PathOf(dir, m.path, i);
      FilePathShape(dir, Cert, i);
      FilePathShape(dir, ClientCa, i);
      FilePathShape(dir, Revocations, i);
    }
  }

  lemma CrtListIsGood(dir: Dir)
    ensures GoodPath(dir + "crt-list")
  {
    assert CrtList.Plain("crt-list");
    assert forall c <- dir + "crt-list" :: CrtList.PlainChar(c);
  }

  lemma DistinctCons(first: Member, files: seq<Member>)
    requires GoodPath(first.path) && DistinctPaths(files)
    requires forall m <- files :: GoodPath(m.path) && m.path != first.path
    ensures DistinctPaths([first] + files) && forall m <- [first] + files :: GoodPath(m.path)
  {
    var ms := [first] + files;
    forall i, j | 0 <= i < j < |ms| ensures ms[i].path != ms[j].path {
      assert files[j - 1] in files;
    }
  }

  /** The paths of the crt-list half are absolute, one line each, and pairwise different. */
  lemma MembersAreDistinct(dir: Dir, entries: seq<Entry>, ext: bool)
    ensures DistinctPaths(Members(dir, entries, ext)) && forall m <- Members(dir, entries, ext) :: GoodPath(m.path)
  {
    FilesAreDistinct(dir, entries, 0);
    FilesAreGood(dir, entries);
    CrtListIsGood(dir);
    DistinctCons(Member(dir + "crt-list", CrtListText(dir, entries, ext)), Files(dir, entries, 0));
  }

  lemma {:induction false} EntryFilesAreFiles(dir: Dir, entries: seq<Entry>, from: nat, i: nat)
    requires i < |entries|
    ensures forall m <- EntryFiles(dir, from + i, entries[i]) :: m in Files(dir, entries, from)
  {
    hide EntryFiles;
    if i > 0 {
      EntryFilesAreFiles(dir, entries[1..], from + 1, i - 1);
      assert entries[1..][i - 1] == entries[i];
    }
  }

  /** Nothing is orphaned: every file in the archive belongs to some entry. */
  lemma {:induction false} FilesAreEntryFiles(dir: Dir, entries: seq<Entry>, from: nat, m: Member) returns (i: nat)
    requires m in Files(dir, entries, from)
    ensures i < |entries| && m in EntryFiles(dir, from + i, entries[i])
  {
    hide EntryFiles;
    if m in EntryFiles(dir, from, entries[0]) {
      i := 0;
    } else {
      i := FilesAreEntryFiles(dir, entries[1..], from + 1, m);
      i := i + 1;
    }
  }

  /** Every file of the archive is named by the line of its entry. */
  lemma NoOrphans(dir: Dir, entries: seq<Entry>, m: Member) returns (i: nat)
    requires (forall e <- entries :: PlainEntry(e)) && m in Files(dir, entries, 0)
    ensures i < |entries| && m.path in References(Decode(Line(dir, i, entries[i])))
  {
    hide Line, Decode, EntryFiles, References;
    i := FilesAreEntryFiles(dir, entries, 0, m);
    LineNamesItsFiles(dir, i, entries[i]);
    var files := EntryFiles(dir, i, entries[i]);
    var k :| 0 <= k < |files| && files[k] == m;
    assert Paths(files)[k] == m.path;
  }

  // ---------- which file a path stands for ----------

  lemma {:induction false} PemFilesAre(dir: Dir, pems: seq<Pem>, from: nat)
    ensures |PemFiles(dir, pems, from)| == |pems|
    ensures forall i :: 0 <= i < |pems| ==>
      PemFiles(dir, pems, from)[i] == Member(FilePath(dir, Cert, from + i), PemBlock(pems[i]))
  {
    hide FilePath, PemBlock;
    if pems != [] {
      PemFilesAre(dir, pems[1..], from + 1);
    }
  }

  /** The text printed for ssl_pem's certificate i. */
  function PemText(pems: seq<Pem>, i: nat): string
    requires i < |pems|
  {
    PemBlock(pems[i]) + if i + 1 < |pems| then "" else "\n"
  }

  lemma AllMembersAre(dir: Dir, pems: seq<Pem>, entries: Option<seq<Entry>>, ext: bool)
    ensures var ms := AllMembers(dir, pems, entries, ext);
      && |ms| == |pems| + (if entries.Some? then |Members(dir, entries.value, ext)| else 0)
      && (forall i :: 0 <= i < |pems| ==> ms[i] == Member(FilePath(dir, Cert, i), PemText(pems, i)))
      && (forall j :: |pems| <= j < |ms| ==> entries.Some? && ms[j] == Members(dir, entries.value, ext)[j - |pems|])
  {
    hide FilePath, PemBlock, Members, PemFiles, Gapped;
    PemFilesAre(dir, pems, 0);
    var first := Gapped(PemFiles(dir, pems, 0));
    forall i | 0 <= i < |pems| ensures first[i] == Member(FilePath(dir, Cert, i), PemText(pems, i)) {
      assert PemBlock(pems[i]) + "" == PemBlock(pems[i]);
    }
    var second := if entries.Some? then Members(dir, entries.value, ext) else [];
    assert AllMembers(dir, pems, entries, ext) == first + second;
  }

  /** All printed paths are absolute and one line each. */
  lemma TemplateIsWellformed(dir: Dir, pems: seq<Pem>, entries: Option<seq<Entry>>, ext: bool)
    ensures Wellformed(if pems == [] then "\n" else "", AllMembers(dir, pems, entries, ext), "\n")
  {
    hide AllMembers, FilePath, Members, PemText, GoodPath;
    var ms := AllMembers(dir, pems, entries, ext);
    AllMembersAre(dir, pems, entries, ext);
    if entries.Some? {
      MembersAreDistinct(dir, entries.value, ext);
    }
    forall j | 0 <= j < |ms| ensures GoodPath(ms[j].path) {
      FilePathShape(dir, Cert, j);
      if j >= |pems| {
        assert ms[j] in Members(dir, entries.value, ext);
      }
    }
  }

  /** A certificate file of the crt-list half belongs to the entry of its number. */
  lemma CertOfEntry(dir: Dir, entries: seq<Entry>, ext: bool, m: Member, i: nat)
    requires m in Members(dir, entries, ext) && m.path == FilePath(dir, Cert, i)
    ensures i < |entries| && m.content == PemBlock(entries[i].pem)
  {
    hide FilePath, PemBlock, CrtListText;
    FilePathShape(dir, Cert, i);
    var owner := FilesAreEntryFiles(dir, entries, 0, m);
    assert PathOf(dir, m.path, owner);
    PathOfOneIndex(dir, m.path, i, owner);
    KindsDiffer(dir, Cert, ClientCa, i);
    KindsDiffer(dir, Cert, Revocations, i);
  }

  /** The only paths printed twice are those of certificates: ssl_pem's certificate i comes first
      and shadows the one of crt-list entry i. */
  lemma OnlyCertsAreShadowed(dir: Dir, pems: seq<Pem>, entries: Option<seq<Entry>>, ext: bool, j: nat)
    requires j < |AllMembers(dir, pems, entries, ext)|
    ensures var ms := AllMembers(dir, pems, entries, ext);
      !IsFirst(ms, j) <==> j >= |pems| && exists i :: 0 <= i < |pems| && ms[j].path == FilePath(dir, Cert, i)
    ensures var m := AllMembers(dir, pems, entries, ext)[j];
      forall i: nat :: j >= |pems| && m.path == FilePath(dir, Cert, i) ==>
        entries.Some? && i < |entries.value| && m.content == PemBlock(entries.value[i].pem)
  {
    hide AllMembers, FilePath, PemText, Members, PemBlock;
    var ms := AllMembers(dir, pems, entries, ext);
    AllMembersAre(dir, pems, entries, ext);
    if j < |pems| {
      forall i | 0 <= i < j ensures ms[i].path != ms[j].path {
        IndicesDiffer(dir, i, j);
      }
    } else {
      var second := Members(dir, entries.value, ext);
      MembersAreDistinct(dir, entries.value, ext);
      assert forall i :: |pems| <= i < j ==> ms[i] == second[i - |pems|] && ms[i].path != ms[j].path;
      forall i: nat | ms[j].path == FilePath(dir, Cert, i)
        ensures i < |entries.value| && ms[j].content == PemBlock(entries.value[i].pem)
      {
        CertOfEntry(dir, entries.value, ext, ms[j], i);
      }
    }
  }

  lemma IndicesDiffer(dir: Dir, i: nat, j: nat)
    requires i != j
    ensures FilePath(dir, Cert, i) != FilePath(dir, Cert, j)
  {
    if FilePath(dir, Cert, i) == FilePath(dir, Cert, j) {
      FilePathInjective(dir, Cert, i, Cert, j);
    }
  }

  lemma FoundInTemplate(dir: Dir, h: Header, pems: seq<Pem>, entries: Option<seq<Entry>>, ext: bool, j: nat)
    requires IsFirst(AllMembers(dir, pems, entries, ext), j)
    requires forall m <- AllMembers(dir, pems, entries, ext) :: Clean(h, m.content)
    ensures var m := AllMembers(dir, pems, entries, ext)[j];
      Answer(h, Template(dir, h, pems, entries, ext), m.path) == Content("\n" + m.content + "\n\n")
  {
    hide AllMembers, Answer, Archive, Wellformed;
    var ms := AllMembers(dir, pems, entries, ext);
    TemplateIsWellformed(dir, pems, entries, ext);
    AnswerFinds(h, if pems == [] then "\n" else "", ms, "\n", j);
    assert Slot(ms, "\n", j) == "\n" + ms[j].content + "\n\n";
  }

  /** ssl_pem's certificates are found, whatever the crt-list half prints. */
  lemma PemsAreFound(dir: Dir, h: Header, pems: seq<Pem>, entries: Option<seq<Entry>>, ext: bool, i: nat)
    requires i < |pems| && forall m <- AllMembers(dir, pems, entries, ext) :: Clean(h, m.content)
    ensures Answer(h, Template(dir, h, pems, entries, ext), FilePath(dir, Cert, i))
      == Content("\n" + PemText(pems, i) + "\n\n")
  {
    hide AllMembers, Answer, Template, FilePath, PemText, Members;
    AllMembersAre(dir, pems, entries, ext);
    OnlyCertsAreShadowed(dir, pems, entries, ext, i);
    FoundInTemplate(dir, h, pems, entries, ext, i);
  }

  /** From the archive text alone: every path that line i names is found with the matching field of
      entry i, except that ssl_pem's certificate i, if there is one, is found in place of the
      entry's own. */
  lemma NamedFilesAreFound(dir: Dir, h: Header, pems: seq<Pem>, entries: seq<Entry>, ext: bool, i: nat, k: nat)
    requires i < |entries| && PlainEntry(entries[i]) && k < |EntryFiles(dir, i, entries[i])|
    requires forall m <- AllMembers(dir, pems, Some(entries), ext) :: Clean(h, m.content)
    ensures |References(Decode(Line(dir, i, entries[i])))| == |EntryFiles(dir, i, entries[i])|
    ensures References(Decode(Line(dir, i, entries[i])))[k] == EntryFiles(dir, i, entries[i])[k].path
    ensures var file := EntryFiles(dir, i, entries[i])[k];
      Answer(h, Template(dir, h, pems, Some(entries), ext), file.path)
        == Content("\n" + (if k == 0 && i < |pems| then PemText(pems, i) else file.content) + "\n\n")
  {
    hide Line, Decode, References, FilePath, PemText, AllMembers, Template, Answer;
    LineNamesItsFiles(dir, i, entries[i]);
    if k == 0 && i < |pems| {
      PemsAreFound(dir, h, pems, Some(entries), ext, i);
    } else {
      var j := OwnFileIsFirst(dir, pems, entries, ext, i, k);
      FoundInTemplate(dir, h, pems, Some(entries), ext, j);
    }
  }

  lemma OwnFileIsFirst(dir: Dir, pems: seq<Pem>, entries: seq<Entry>, ext: bool, i: nat, k: nat) returns (j: nat)
    requires i < |entries| && k < |EntryFiles(dir, i, entries[i])| && (k > 0 || i >= |pems|)
    ensures IsFirst(AllMembers(dir, pems, Some(entries), ext), j)
    ensures AllMembers(dir, pems, Some(entries), ext)[j] == EntryFiles(dir, i, entries[i])[k]
  {
    hide AllMembers, FilePath, PemText, Files, PemBlock, CrtListText;
    var file := EntryFiles(dir, i, entries[i])[k];
    EntryFilesAreFiles(dir, entries, 0, i);
    var files := Files(dir, entries, 0);
    assert file in EntryFiles(dir, 0 + i, entries[i]) && file in files;
    var at :| 0 <= at < |files| && files[at] == file;
    assert Members(dir, entries, ext)[at + 1] == file;
    j := |pems| + at + 1;
    AllMembersAre(dir, pems, Some(entries), ext);
    OnlyCertsAreShadowed(dir, pems, Some(entries), ext, j);
    forall c | 0 <= c < |pems| ensures file.path != FilePath(dir, Cert, c) {
      OtherKindOrIndex(dir, i, entries[i], k, c);
    }
  }

  lemma OtherKindOrIndex(dir: Dir, i: nat, e: Entry, k: nat, c: nat)
    requires k < |EntryFiles(dir, i, e)| && (k > 0 || i != c)
    ensures EntryFiles(dir, i, e)[k].path != FilePath(dir, Cert, c)
  {
    hide FilePath, PemBlock;
    var path := EntryFiles(dir, i, e)[k].path;
    if path == FilePath(dir, Cert, c) {
      PathOfOneIndex(dir, path, i, c);
      KindsDiffer(dir, Cert, ClientCa, i);
      KindsDiffer(dir, Cert, Revocations, i);
    }
  }

  function LineList(dir: Dir, entries: seq<Entry>, n: nat): (r: seq<string>)
    requires n <= |entries|
    ensures |r| == n
  {
    if n == 0 then [] else LineList(dir, entries, n - 1) + [Line(dir, n - 1, entries[n - 1])]
  }

  lemma {:induction false} LineListIs(dir: Dir, entries: seq<Entry>, n: nat)
    requires n <= |entries|
    ensures forall i :: 0 <= i < n ==> LineList(dir, entries, n)[i] == Line(dir, i, entries[i])
  {
    hide Line;
    if n > 0 {
      LineListIs(dir, entries, n - 1);
    }
  }

  lemma LineTextSnoc(dir: Dir, entries: seq<Entry>, n: nat)
    requires 0 < n <= |entries|
    ensures LineText(dir, entries, n) == LineText(dir, entries, n - 1) + (Line(dir, n - 1, entries[n - 1]) + "\n")
    ensures LineList(dir, entries, n) == LineList(dir, entries, n - 1) + [Line(dir, n - 1, entries[n - 1])]
  {
    hide Line;
  }

  lemma {:induction false} SplitOfLineText(dir: Dir, entries: seq<Entry>, n: nat, rest: string)
    requires n <= |entries| && forall e <- entries :: PlainEntry(e)
    ensures Split(LineText(dir, entries, n) + rest, '\n') == LineList(dir, entries, n) + Split(rest, '\n')
  {
    hide Line;
    if n == 0 {
      assert "" + rest == rest;
      assert [] + Split(rest, '\n') == Split(rest, '\n');
    } else {
      var line, e := Line(dir, n - 1, entries[n - 1]), entries[n - 1];
      assert e in entries;
      LineTextSnoc(dir, entries, n);
      hide LineText, LineList, Split, PlainEntry;
      LineIsOneLine(dir, n - 1, e);
      SplitOfPrefix(line, '\n', rest);
      SplitOfLineText(dir, entries, n - 1, line + ['\n'] + rest);
      Assoc(LineText(dir, entries, n - 1), line + "\n", rest);
      Assoc(LineList(dir, entries, n - 1), [line], Split(rest, '\n'));
    }
  }

  /** Splitting the crt-list as looked up in the archive gives back line i. */
  lemma LineIsFound(dir: Dir, h: Header, pems: seq<Pem>, entries: seq<Entry>, ext: bool, i: nat)
    requires i < |entries| && forall e <- entries :: PlainEntry(e)
    requires forall m <- AllMembers(dir, pems, Some(entries), ext) :: Clean(h, m.content)
    ensures var crtList := Answer(h, Template(dir, h, pems, Some(entries), ext), dir + "crt-list");
      && crtList.Content? && |Split(crtList.text, '\n')| > i + 1
      && Split(crtList.text, '\n')[i + 1] == Line(dir, i, entries[i])
  {
    hide Line, Files, Answer, AllMembers, Template, FilePath, PemText;
    CrtListIsFound(dir, h, pems, entries, ext);
    var tail := if ext then "\n#OPTIONAL_EXT_CERTS" else "";
    var text := LineText(dir, entries, |entries|);
    SplitOfLineText(dir, entries, |entries|, tail + "\n\n");
    LineListIs(dir, entries, |entries|);
    Assoc(text, tail, "\n\n");
    SplitOfPrefix("", '\n', text + (tail + "\n\n"));
    assert "" + ['\n'] + (text + (tail + "\n\n")) == "\n" + CrtListText(dir, entries, ext) + "\n\n";
  }

  lemma CrtListIsFound(dir: Dir, h: Header, pems: seq<Pem>, entries: seq<Entry>, ext: bool)
    requires forall m <- AllMembers(dir, pems, Some(entries), ext) :: Clean(h, m.content)
    ensures Answer(h, Template(dir, h, pems, Some(entries), ext), dir + "crt-list")
      == Content("\n" + CrtListText(dir, entries, ext) + "\n\n")
  {
    hide Files, Answer, AllMembers, Template, FilePath, PemText, CrtListText;
    AllMembersAre(dir, pems, Some(entries), ext);
    OnlyCertsAreShadowed(dir, pems, Some(entries), ext, |pems|);
    forall i | 0 <= i < |pems| ensures dir + "crt-list" != FilePath(dir, Cert, i) {
      FilePathShape(dir, Cert, i);
    }
    FoundInTemplate(dir, h, pems, Some(entries), ext, |pems|);
  }

  /** The exact condition for the whole archive: every file that no earlier one shadows reads back
      unchanged, the crt-list included, if and only if no content holds the header marker. (The
      certificates that ssl_pem shadows are taken to be free of it.) */
  lemma ArchiveRoundTripIff(dir: Dir, h: Header, pems: seq<Pem>, entries: Option<seq<Entry>>, ext: bool)
    requires entries.Some? ==>
      forall i :: 0 <= i < |pems| && i < |entries.value| ==> Clean(h, PemBlock(entries.value[i].pem))
    ensures var ms, text := AllMembers(dir, pems, entries, ext), Template(dir, h, pems, entries, ext);
      (forall j :: 0 <= j < |ms| && IsFirst(ms, j) ==>
        Answer(h, text, ms[j].path) == Content("\n" + ms[j].content + "\n\n"))
       <==> (forall m <- ms :: Clean(h, m.content))
  {
    hide AllMembers, Answer, Archive, Wellformed, Clean, FilePath;
    var ms := AllMembers(dir, pems, entries, ext);
    TemplateIsWellformed(dir, pems, entries, ext);
    forall j | 0 <= j < |ms| && !IsFirst(ms, j) ensures Clean(h, ms[j].content) {
      OnlyCertsAreShadowed(dir, pems, entries, ext, j);
    }
    RoundTripIff(h, if pems == [] then "\n" else "", ms, "\n");
    assert forall j :: 0 <= j < |ms| ==> Slot(ms, "\n", j) == "\n" + ms[j].content + "\n\n";
  }

  // ---------- the fields themselves ----------

  /** What the file of a certificate must hold: the text as given, or chain, line break and key, both
      without outer blanks. */
  predicate HoldsPem(text: string, pem: Pem)
  {
    match pem
    case NoPem => text == ""
    case Whole(t) => text == t
    case KeyPair(chain, key) => text == Strip(chain) + "\n" + Strip(key)
  }

  ghost predicate CleanPem(h: Header, pem: Pem)
  {
    match pem
    case NoPem => true
    case Whole(t) => Clean(h, t)
    case KeyPair(chain, key) => Clean(h, Strip(chain)) && Clean(h, Strip(key))
  }

  ghost predicate CleanGiven(h: Header, value: Option<string>)
  {
    value.Some? ==> Clean(h, value.value)
  }

  /** No configured content, and no crt-list line, holds the marker. */
  ghost predicate CleanInput(dir: Dir, h: Header, pems: seq<Pem>, entries: seq<Entry>, ext: bool)
  {
    && (forall p <- pems :: CleanPem(h, p))
    && (forall e <- entries :: CleanPem(h, e.pem) && CleanGiven(h, e.clientCa) && CleanGiven(h, e.revocations))
    && Clean(h, CrtListText(dir, entries, ext))
  }

  lemma CleanBlock(h: Header, pem: Pem)
    requires CleanPem(h, pem)
    ensures Clean(h, PemBlock(pem)) && Clean(h, PemBlock(pem) + "\n") && HoldsPem(PemBlock(pem), pem)
  {
    NewlinesAreClean(h, "");
    if pem.KeyPair? {
      NoStraddle(Strip(pem.chain), '\n', Strip(pem.key), h);
    }
    NoStraddle(PemBlock(pem), '\n', "", h);
    assert PemBlock(pem) + ['\n'] + "" == PemBlock(pem) + "\n";
  }

  lemma EntryFilesAreClean(dir: Dir, h: Header, i: nat, e: Entry)
    requires CleanPem(h, e.pem) && CleanGiven(h, e.clientCa) && CleanGiven(h, e.revocations)
    ensures forall m <- EntryFiles(dir, i, e) :: Clean(h, m.content)
  {
    hide Clean, FilePath, PemBlock;
    CleanBlock(h, e.pem);
  }

  lemma AllMembersAreClean(dir: Dir, h: Header, pems: seq<Pem>, entries: seq<Entry>, ext: bool)
    requires CleanInput(dir, h, pems, entries, ext)
    ensures forall m <- AllMembers(dir, pems, Some(entries), ext) :: Clean(h, m.content)
  {
    hide AllMembers, Clean, CleanPem, CleanGiven, PemBlock, FilePath, EntryFiles, CrtListText;
    AllMembersAre(dir, pems, Some(entries), ext);
    var ms := AllMembers(dir, pems, Some(entries), ext);
    forall j | 0 <= j < |ms| ensures Clean(h, ms[j].content) {
      if j < |pems| {
        assert pems[j] in pems;
        CleanBlock(h, pems[j]);
        assert PemBlock(pems[j]) + "" == PemBlock(pems[j]);
      } else {
        MemberIsClean(dir, h, entries, ext, ms[j]);
      }
    }
  }

  lemma MemberIsClean(dir: Dir, h: Header, entries: seq<Entry>, ext: bool, m: Member)
    requires (forall e <- entries :: CleanPem(h, e.pem) && CleanGiven(h, e.clientCa) && CleanGiven(h, e.revocations))
    requires Clean(h, CrtListText(dir, entries, ext)) && m in Members(dir, entries, ext)
    ensures Clean(h, m.content)
  {
    hide Clean, CleanPem, CleanGiven, EntryFiles, CrtListText;
    if m in Files(dir, entries, 0) {
      var i := FilesAreEntryFiles(dir, entries, 0, m);
      assert entries[i] in entries;
      EntryFilesAreClean(dir, h, i, entries[i]);
    }
  }

  lemma PathText(dir: Dir, i: nat)
    ensures FilePath(dir, Cert, i) == dir + "cert-" + Decimal.Print(i) + ".pem"
    ensures FilePath(dir, ClientCa, i) == dir + "ca-file-" + Decimal.Print(i) + ".pem"
    ensures FilePath(dir, Revocations, i) == dir + "crl-file-" + Decimal.Print(i) + ".pem"
  {
    hide Decimal.Print;
    PathParts(dir, "cert", Decimal.Print(i), "cert-");
    PathParts(dir, "ca-file", Decimal.Print(i), "ca-file-");
    PathParts(dir, "crl-file", Decimal.Print(i), "crl-file-");
  }

  lemma PathParts(dir: string, kind: string, n: string, stem: string)
    requires kind + "-" == stem
    ensures dir + (kind + ("-" + (n + ".pem"))) == dir + stem + n + ".pem"
  {
    Assoc(kind, "-", n + ".pem");
    Assoc(stem, n, ".pem");
    Assoc(dir, stem, n + ".pem");
    Assoc(dir + stem, n, ".pem");
  }

  /** A file of the crt-list half is found under its path, unless ssl_pem shadows it. */
  lemma OwnFileIsFound(
      dir: Dir, h: Header, pems: seq<Pem>, entries: seq<Entry>, ext: bool, i: nat, k: nat)
    requires CleanInput(dir, h, pems, entries, ext)
    requires i < |entries| && k < |EntryFiles(dir, i, entries[i])| && (k > 0 || i >= |pems|)
    ensures var file := EntryFiles(dir, i, entries[i])[k];
      Answer(h, Template(dir, h, pems, Some(entries), ext), file.path) == Content("\n" + file.content + "\n\n")
  {
    hide EntryFiles, AllMembers, Template, Answer, CleanInput, Clean, FilePath;
    AllMembersAreClean(dir, h, pems, entries, ext);
    var j := OwnFileIsFirst(dir, pems, entries, ext, i, k);
    FoundInTemplate(dir, h, pems, Some(entries), ext, j);
  }

  ghost predicate PathFree(dir: Dir, pems: seq<Pem>, entries: seq<Entry>, ext: bool, path: string)
  {
    forall m <- AllMembers(dir, pems, Some(entries), ext) :: m.path != path
  }

  lemma NothingElseIsFound(
      dir: Dir, h: Header, pems: seq<Pem>, entries: seq<Entry>, ext: bool, path: string)
    requires CleanInput(dir, h, pems, entries, ext) && Absolute(path) && PathFree(dir, pems, entries, ext, path)
    ensures Answer(h, Template(dir, h, pems, Some(entries), ext), path).NotFound?
  {
    hide AllMembers, Answer, CleanInput, Clean, Archive;
    AllMembersAreClean(dir, h, pems, entries, ext);
    TemplateIsWellformed(dir, pems, Some(entries), ext);
    OnlyMembersAreFound(
      h, if pems == [] then "\n" else "", AllMembers(dir, pems, Some(entries), ext), "\n", path);
  }

  lemma AbsentFieldIsFree(
      dir: Dir, pems: seq<Pem>, entries: seq<Entry>, ext: bool, kind: Kind, i: nat)
    requires match kind
      case Cert => i >= |pems| && i >= |entries|
      case ClientCa => i < |entries| ==> entries[i].clientCa.None?
      case Revocations => i < |entries| ==> entries[i].revocations.None?
    ensures PathFree(dir, pems, entries, ext, FilePath(dir, kind, i)) && Absolute(FilePath(dir, kind, i))
  {
    hide AllMembers, FilePath, PemText, CrtListText, PemBlock;
    AllMembersAre(dir, pems, Some(entries), ext);
    var ms, path := AllMembers(dir, pems, Some(entries), ext), FilePath(dir, kind, i);
    FilePathShape(dir, kind, i);
    forall j | 0 <= j < |ms| ensures ms[j].path != path {
      if j < |pems| {
        OtherFile(dir, Cert, j, kind, i);
      } else if ms[j].path == path {
        assert ms[j] in Members(dir, entries, ext);
        var owner := FilesAreEntryFiles(dir, entries, 0, ms[j]);
        OwnerHasField(dir, owner, entries[owner], ms[j], kind, i);
      }
    }
  }

  lemma OtherFile(dir: Dir, a: Kind, i: nat, b: Kind, j: nat)
    requires a != b || i != j
    ensures FilePath(dir, a, i) != FilePath(dir, b, j)
  {
    if FilePath(dir, a, i) == FilePath(dir, b, j) {
      FilePathInjective(dir, a, i, b, j);
    }
  }

  lemma OwnerHasField(dir: Dir, owner: nat, e: Entry, m: Member, kind: Kind, i: nat)
    requires m in EntryFiles(dir, owner, e) && m.path == FilePath(dir, kind, i)
    ensures owner == i && (kind == ClientCa ==> e.clientCa.Some?) && (kind == Revocations ==> e.revocations.Some?)
  {
    hide FilePath, PemBlock;
    var own :=
      if m.path == FilePath(dir, Cert, owner) then Cert
      else if m.path == FilePath(dir, ClientCa, owner) then ClientCa
      else Revocations;
    FilePathInjective(dir, own, owner, kind, i);
    KindsDiffer(dir, Cert, ClientCa, i);
    KindsDiffer(dir, Cert, Revocations, i);
    KindsDiffer(dir, ClientCa, Revocations, i);
  }

  /** From the configuration to the archive text and back, field by field: each given client CA and
      revocation list is found under its own numbered path with its own text; the certificate is the
      one configured, that of ssl_pem where there is one of the number; and where no such field is
      given, no such file is found. */
  lemma FieldsAreFound(dir: Dir, h: Header, pems: seq<Pem>, entries: seq<Entry>, ext: bool, i: nat)
    requires CleanInput(dir, h, pems, entries, ext)
    ensures var text := Template(dir, h, pems, Some(entries), ext);
      && (var ca := Answer(h, text, dir + "ca-file-" + Decimal.Print(i) + ".pem");
          if i < |entries| && entries[i].clientCa.Some? then ca == Content("\n" + entries[i].clientCa.value + "\n\n")
          else ca.NotFound?)
      && (var crl := Answer(h, text, dir + "crl-file-" + Decimal.Print(i) + ".pem");
          if i < |entries| && entries[i].revocations.Some? then
            crl == Content("\n" + entries[i].revocations.value + "\n\n")
          else crl.NotFound?)
      && (var cert := Answer(h, text, dir + "cert-" + Decimal.Print(i) + ".pem");
          if i < |pems| then
            exists t :: HoldsPem(t, pems[i]) && cert == Content("\n" + t + Gap(i + 1 < |pems|))
          else if i < |entries| then exists t :: HoldsPem(t, entries[i].pem) && cert == Content("\n" + t + "\n\n")
          else cert.NotFound?)
  {
    hide Answer, Template, CleanInput, FilePath, PemBlock, CrtListText, Decimal.Print;
    PathText(dir, i);
    CaIsFound(dir, h, pems, entries, ext, i);
    CrlIsFound(dir, h, pems, entries, ext, i);
    CertIsFound(dir, h, pems, entries, ext, i);
  }

  lemma CaIsFound(dir: Dir, h: Header, pems: seq<Pem>, entries: seq<Entry>, ext: bool, i: nat)
    requires CleanInput(dir, h, pems, entries, ext)
    ensures var ca := Answer(h, Template(dir, h, pems, Some(entries), ext), FilePath(dir, ClientCa, i));
      if i < |entries| && entries[i].clientCa.Some? then ca == Content("\n" + entries[i].clientCa.value + "\n\n")
      else ca.NotFound?
  {
    hide Answer, Template, CleanInput, FilePath, PemBlock, CrtListText;
    if i < |entries| && entries[i].clientCa.Some? {
      var files := EntryFiles(dir, i, entries[i]);
      assert files[1] == Member(FilePath(dir, ClientCa, i), entries[i].clientCa.value);
      OwnFileIsFound(dir, h, pems, entries, ext, i, 1);
    } else {
      AbsentFieldIsFree(dir, pems, entries, ext, ClientCa, i);
      NothingElseIsFound(dir, h, pems, entries, ext, FilePath(dir, ClientCa, i));
    }
  }

  lemma CrlIsFound(dir: Dir, h: Header, pems: seq<Pem>, entries: seq<Entry>, ext: bool, i: nat)
    requires CleanInput(dir, h, pems, entries, ext)
    ensures var crl := Answer(h, Template(dir, h, pems, Some(entries), ext), FilePath(dir, Revocations, i));
      if i < |entries| && entries[i].revocations.Some? then
        crl == Content("\n" + entries[i].revocations.value + "\n\n")
      else crl.NotFound?
  {
    hide Answer, Template, CleanInput, FilePath, PemBlock, CrtListText;
    if i < |entries| && entries[i].revocations.Some? {
      var files := EntryFiles(dir, i, entries[i]);
      var k := if entries[i].clientCa.Some? then 2 else 1;
      assert files[k] == Member(FilePath(dir, Revocations, i), entries[i].revocations.value);
      OwnFileIsFound(dir, h, pems, entries, ext, i, k);
    } else {
      AbsentFieldIsFree(dir, pems, entries, ext, Revocations, i);
      NothingElseIsFound(dir, h, pems, entries, ext, FilePath(dir, Revocations, i));
    }
  }

  lemma CertIsFound(dir: Dir, h: Header, pems: seq<Pem>, entries: seq<Entry>, ext: bool, i: nat)
    requires CleanInput(dir, h, pems, entries, ext)
    ensures var cert := Answer(h, Template(dir, h, pems, Some(entries), ext), FilePath(dir, Cert, i));
      if i < |pems| then
        exists t :: HoldsPem(t, pems[i]) && cert == Content("\n" + t + Gap(i + 1 < |pems|))
      else if i < |entries| then exists t :: HoldsPem(t, entries[i].pem) && cert == Content("\n" + t + "\n\n")
      else cert.NotFound?
  {
    hide Answer, Template, FilePath, CrtListText, Clean, AllMembers;
    if i < |pems| {
      assert pems[i] in pems;
      CleanBlock(h, pems[i]);
      AllMembersAreClean(dir, h, pems, entries, ext);
      PemsAreFound(dir, h, pems, Some(entries), ext, i);
      var t := PemBlock(pems[i]);
      GapAfter(t, i + 1 < |pems|);
      assert HoldsPem(t, pems[i]);
    } else if i < |entries| {
      assert entries[i] in entries;
      CleanBlock(h, entries[i].pem);
      OwnFileIsFound(dir, h, pems, entries, ext, i, 0);
      assert HoldsPem(PemBlock(entries[i].pem), entries[i].pem);
    } else {
      AbsentFieldIsFree(dir, pems, entries, ext, Cert, i);
      NothingElseIsFound(dir, h, pems, entries, ext, FilePath(dir, Cert, i));
    }
  }

  /** The same without a crt_list: the certificates of ssl_pem and nothing else. */
  lemma PemFieldsAreFound(dir: Dir, h: Header, pems: seq<Pem>, ext: bool, i: nat)
    requires forall p <- pems :: CleanPem(h, p)
    ensures var cert := Answer(h, Template(dir, h, pems, None, ext), dir + "cert-" + Decimal.Print(i) + ".pem");
      if i < |pems| then
        exists t :: HoldsPem(t, pems[i]) && cert == Content("\n" + t + Gap(i + 1 < |pems|))
      else cert.NotFound?
  {
    hide Answer, Archive, FilePath, Clean, AllMembers, Decimal.Print, CleanPem, PemBlock, GoodPath;
    PathText(dir, i);
    AllMembersAre(dir, pems, None, ext);
    TemplateIsWellformed(dir, pems, None, ext);
    var ms := AllMembers(dir, pems, None, ext);
    forall j | 0 <= j < |ms| ensures Clean(h, ms[j].content) && ms[j].path == FilePath(dir, Cert, j) {
      assert pems[j] in pems;
      CleanBlock(h, pems[j]);
      assert PemBlock(pems[j]) + "" == PemBlock(pems[j]);
    }
    if i < |pems| {
      PemsAreFound(dir, h, pems, None, ext, i);
      assert pems[i] in pems;
      CleanBlock(h, pems[i]);
      GapAfter(PemBlock(pems[i]), i + 1 < |pems|);
    } else {
      forall j | 0 <= j < |ms| ensures ms[j].path != FilePath(dir, Cert, i) {
        IndicesDiffer(dir, i, j);
      }
      FilePathShape(dir, Cert, i);
      GoodIsAbsolute(FilePath(dir, Cert, i));
      OnlyMembersAreFound(h, if pems == [] then "\n" else "", ms, "\n", FilePath(dir, Cert, i));
    }
  }

  lemma GoodIsAbsolute(path: string)
    requires GoodPath(path)
    ensures Absolute(path)
  {
  }

  /** The line breaks behind an ssl_pem certificate: one more after the last. */
  function Gap(more: bool): string
  {
    if more then "\n\n" else "\n\n\n"
  }

  lemma GapAfter(t: string, more: bool)
    ensures "\n" + (t + if more then "" else "\n") + "\n\n" == "\n" + t + Gap(more)
  {
    assert t + "" == t;
  }

  /** The looked-up crt-list ends with the line for external certificates exactly if they are on. */
  lemma ExtLineIff(dir: Dir, h: Header, pems: seq<Pem>, entries: seq<Entry>, ext: bool)
    requires CleanInput(dir, h, pems, entries, ext)
    ensures var crtList := Answer(h, Template(dir, h, pems, Some(entries), ext), dir + "crt-list");
      crtList.Content? && (EndsWith(crtList.text, "\n#OPTIONAL_EXT_CERTS\n\n") <==> ext)
  {
    AllMembersAreClean(dir, h, pems, entries, ext);
    CrtListIsFound(dir, h, pems, entries, ext);
    hide Answer, Template, CleanInput;
    var text := LineText(dir, entries, |entries|);
    LinesEndInNewline(dir, entries, |entries|);
    hide LineText;
    if ext {
      EndsWithExt(text);
    } else {
      EndsWithoutExt(text);
      assert text + "" == text;
    }
  }

  lemma LinesEndInNewline(dir: Dir, entries: seq<Entry>, n: nat)
    requires n <= |entries|
    ensures var text := LineText(dir, entries, n); text == "" || text[|text| - 1] == '\n'
  {
    hide Line;
  }

  lemma EndsWithExt(text: string)
    ensures EndsWith("\n" + (text + "\n#OPTIONAL_EXT_CERTS") + "\n\n", "\n#OPTIONAL_EXT_CERTS\n\n")
  {
    var suffix := "\n#OPTIONAL_EXT_CERTS\n\n";
    assert "\n" + (text + "\n#OPTIONAL_EXT_CERTS") + "\n\n" == "\n" + text + suffix;
    EndsWithIff("\n" + text + suffix, suffix);
  }

  lemma EndsWithoutExt(text: string)
    requires text == "" || text[|text| - 1] == '\n'
    ensures !EndsWith("\n" + text + "\n\n", "\n#OPTIONAL_EXT_CERTS\n\n")
  {
    var s, suffix := "\n" + text + "\n\n", "\n#OPTIONAL_EXT_CERTS\n\n";
    assert s[|s| - 3] == '\n';
    assert |suffix| == 22 && suffix[19] == 'S';
    if |suffix| <= |s| {
      assert s[|s| - 22..][19] == s[|s| - 3];
    }
  }
}
