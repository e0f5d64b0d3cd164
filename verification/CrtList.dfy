/** The lines of the crt-list file: how the template prints one, and a reader that shows the
    line determines what was configured. */
module CrtList {
  import opened Text
  import Decimal

  datatype Pem = NoPem | Whole(text: string) | KeyPair(chain: string, key: string)

  datatype Sni = NoFilter | One(filter: string) | Many(filters: seq<string>)

  datatype Entry = Entry(
    pem: Pem, clientCa: Option<string>, revocations: Option<string>,
    verify: Option<string>, ciphers: Option<string>, ciphersuites: Option<string>,
    minVersion: Option<string>, maxVersion: Option<string>, alpn: Option<seq<string>>, sni: Sni)

  /** Values the line format can carry: no blanks, no brackets. */
  predicate PlainChar(c: char)
  {
    !RubyBlank(c) && c != '[' && c != ']'
  }

  predicate Plain(s: string)
  {
    forall c <- s :: PlainChar(c)
  }

  /** The directory the files live in. */
  type Dir = d: string | d != "" && d[0] == '/' && Plain(d) witness "/"

  function Under(dir: Dir, rest: string): Dir
    requires Plain(rest)
  {
    dir + rest
  }

  /** /var/vcap/jobs/haproxy/config/ssl/ */
  const SSL_DIR: Dir := Under(Under("/var/vcap/", "jobs/haproxy/"), "config/ssl/")

  datatype Kind = Cert | ClientCa | Revocations

  function KindName(kind: Kind): string
  {
    match kind
    case Cert => "cert"
    case ClientCa => "ca-file"
    case Revocations => "crl-file"
  }

  function FilePath(dir: Dir, kind: Kind, i: nat): string
  {
    dir + (KindName(kind) + ("-" + (Decimal.Print(i) + ".pem")))
  }

  // ---------- printing a line ----------

  datatype Keyword = CaFile | CrlFile | Verify | Ciphers | Ciphersuites | SslMinVer | SslMaxVer | Alpn

  function Name(k: Keyword): string
  {
    match k
    case CaFile => "ca-file"
    case CrlFile => "crl-file"
    case Verify => "verify"
    case Ciphers => "ciphers"
    case Ciphersuites => "ciphersuites"
    case SslMinVer => "ssl-min-ver"
    case SslMaxVer => "ssl-max-ver"
    case Alpn => "alpn"
  }

  datatype Opt = Opt(keyword: Keyword, value: Option<string>)

  function CommaJoin(items: seq<string>): string
  {
    if items == [] then "" else Join(items, ',')
  }

  function FileIf(given: Option<string>, path: string): Option<string>
  {
    if given.Some? then Some(path) else None
  }

  /** The k-th of the eight optional settings, in print order. */
  function OptionAt(dir: Dir, i: nat, e: Entry, k: nat): Opt
  {
    match k
    case 0 => Opt(CaFile, FileIf(e.clientCa, FilePath(dir, ClientCa, i)))
    case 1 => Opt(CrlFile, FileIf(e.revocations, FilePath(dir, Revocations, i)))
    case 2 => Opt(Verify, e.verify)
    case 3 => Opt(Ciphers, e.ciphers)
    case 4 => Opt(Ciphersuites, e.ciphersuites)
    case 5 => Opt(SslMinVer, e.minVersion)
    case 6 => Opt(SslMaxVer, e.maxVersion)
    case _ => Opt(Alpn, if e.alpn.Some? then Some(CommaJoin(e.alpn.value)) else None)
  }

  function Options(dir: Dir, i: nat, e: Entry): (opts: seq<Opt>)
    ensures |opts| == 8
  {
    seq(8, k requires 0 <= k < 8 => OptionAt(dir, i, e, k))
  }

  function OptText(o: Opt): string
  {
    if o.value.Some? then " " + Name(o.keyword) + " " + o.value.value else ""
  }

  function BindText(opts: seq<Opt>): string
  {
    if opts == [] then "" else OptText(opts[0]) + BindText(opts[1..])
  }

  /** The bracketed part; alpn leaves a space behind that strip takes off. */
  function Bracket(bind: string): string
  {
    if bind == "" then "" else " [" + Strip(bind) + "]"
  }

  function Filters(sni: Sni): seq<string>
  {
    match sni
    case NoFilter => []
    case One(f) => [f]
    case Many(fs) => fs
  }

  function FilterText(filters: seq<string>): string
  {
    if filters == [] then "" else " " + filters[0] + FilterText(filters[1..])
  }

  function Line(dir: Dir, i: nat, e: Entry): string
  {
    FilePath(dir, Cert, i)
      + (Bracket(BindText(Options(dir, i, e)) + if e.alpn.Some? then " " else "") + FilterText(Filters(e.sni)))
  }

  lemma {:induction false} BindSnoc(opts: seq<Opt>, o: Opt)
    ensures BindText(opts + [o]) == BindText(opts) + OptText(o)
  {
    if opts == [] {
      assert [o][1..] == [];
    } else {
      BindSnoc(opts[1..], o);
      assert (opts + [o])[1..] == opts[1..] + [o];
      Assoc(OptText(opts[0]), BindText(opts[1..]), OptText(o));
    }
  }

  /** Appends one setting if it is configured: the k-th of the settings to print. */
  method AddSetting(conf: string, keyword: Keyword, value: Option<string>, ghost opts: seq<Opt>, ghost k: nat)
    returns (r: string)
    requires k < |opts| && opts[k] == Opt(keyword, value) && conf == BindText(opts[..k])
    ensures r == BindText(opts[..k + 1])
  {
    hide Name, BindText;
    BindSnoc(opts[..k], opts[k]);
    assert opts[..k + 1] == opts[..k] + [opts[k]];
    r := conf;
    if value.Some? {
      r := r + (" " + Name(keyword) + " " + value.value);
    }
  }

  method PrintFileSettings(dir: Dir, i: nat, e: Entry) returns (conf: string)
    ensures conf == BindText(Options(dir, i, e)[..2])
  {
    assert BindText([]) == "";
    hide BindText, OptText, FilePath, CommaJoin, FileIf, Name;
    ghost var opts := Options(dir, i, e);
    assert opts[..0] == [];
    conf := AddSetting("", CaFile, FileIf(e.clientCa, FilePath(dir, ClientCa, i)), opts, 0);
    conf := AddSetting(conf, CrlFile, FileIf(e.revocations, FilePath(dir, Revocations, i)), opts, 1);
  }

  method PrintFirstSettings(dir: Dir, i: nat, e: Entry) returns (conf: string)
    ensures conf == BindText(Options(dir, i, e)[..4])
  {
    hide BindText, OptText, FilePath, CommaJoin, FileIf, Name;
    ghost var opts := Options(dir, i, e);
    conf := PrintFileSettings(dir, i, e);
    conf := AddSetting(conf, Verify, e.verify, opts, 2);
    conf := AddSetting(conf, Ciphers, e.ciphers, opts, 3);
  }

  /** All eight settings, in the order of the template. */
  method PrintSettings(dir: Dir, i: nat, e: Entry) returns (conf: string)
    ensures conf == BindText(Options(dir, i, e))
  {
    hide BindText, OptText, FilePath, CommaJoin, FileIf;
    ghost var opts := Options(dir, i, e);
    conf := PrintFirstSettings(dir, i, e);
    conf := AddSetting(conf, Ciphersuites, e.ciphersuites, opts, 4);
    conf := AddSetting(conf, SslMinVer, e.minVersion, opts, 5);
    conf := AddSetting(conf, SslMaxVer, e.maxVersion, opts, 6);
    conf := AddSetting(conf, Alpn, if e.alpn.Some? then Some(CommaJoin(e.alpn.value)) else None, opts, 7);
    assert opts[..8] == opts;
  }

  /** The bracketed part of a line. */
  method PrintBracket(dir: Dir, i: nat, e: Entry) returns (sslbindconf: string)
    ensures sslbindconf == Bracket(BindText(Options(dir, i, e)) + if e.alpn.Some? then " " else "")
  {
    sslbindconf := PrintSettings(dir, i, e);
    assert sslbindconf + "" == sslbindconf;
    if e.alpn.Some? {
      sslbindconf := sslbindconf + " ";
    }
    if sslbindconf != "" {
      sslbindconf := " [" + Strip(sslbindconf) + "]";
    }
  }

  method PrintFilters(sni: Sni) returns (snifilter: string)
    ensures snifilter == FilterText(Filters(sni))
  {
    snifilter := "";
    match sni {
      case NoFilter =>
      case One(f) =>
        snifilter := " " + f;
        assert FilterText([f]) == " " + f + FilterText([]);
      case Many(fs) =>
        for k := 0 to |fs|
          invariant snifilter + FilterText(fs[k..]) == FilterText(fs)
        {
          assert fs[k..][1..] == fs[k + 1..];
          Assoc(snifilter, " " + fs[k], FilterText(fs[k + 1..]));
          snifilter := snifilter + (" " + fs[k]);
        }
        assert fs[|fs|..] == [];
    }
  }

  /** One line of the crt-list, without its newline. */
  method PrintLine(dir: Dir, i: nat, e: Entry) returns (line: string)
    ensures line == Line(dir, i, e)
  {
    var sslbindconf := PrintBracket(dir, i, e);
    var snifilter := PrintFilters(e.sni);
    line := FilePath(dir, Cert, i) + (sslbindconf + snifilter);
  }

  // ---------- reading a line back ----------

  datatype Parsed = Parsed(path: string, settings: seq<(string, string)>, filters: seq<string>)

  predicate NotSpace(c: char)
  {
    c != ' '
  }

  predicate NotClose(c: char)
  {
    c != ']'
  }

  function Pairs(tokens: seq<string>): seq<(string, string)>
  {
    if tokens == [] then []
    else if |tokens| == 1 then [(tokens[0], "")]
    else [(tokens[0], tokens[1])] + Pairs(tokens[2..])
  }

  function FilterList(text: string): seq<string>
  {
    if text == "" then [] else Split(text[1..], ' ')
  }

  function Decode(line: string): Parsed
  {
    var n := Span(line, NotSpace);
    var path, rest := line[..n], line[n..];
    if " [" <= rest then
      var body := rest[2..];
      var m := Span(body, NotClose);
      Parsed(path, Pairs(Split(body[..m], ' ')), FilterList(if m < |body| then body[m + 1..] else ""))
    else Parsed(path, [], FilterList(rest))
  }

  function Present(opts: seq<Opt>): seq<(string, string)>
  {
    if opts == [] then []
    else (if opts[0].value.Some? then [(Name(opts[0].keyword), opts[0].value.value)] else []) + Present(opts[1..])
  }

  function Tokens(settings: seq<(string, string)>): seq<string>
  {
    if settings == [] then [] else [settings[0].0, settings[0].1] + Tokens(settings[1..])
  }

  predicate PlainOpt(o: Opt)
  {
    o.value.Some? ==> Plain(o.value.value)
  }

  lemma NameIsPlain(k: Keyword)
    ensures Name(k) != "" && Plain(Name(k))
  {
  }

  lemma NameInjective(k: Keyword, m: Keyword)
    requires Name(k) == Name(m)
    ensures k == m
  {
    assert |Name(k)| == |Name(m)| && Name(k)[1] == Name(m)[1] && (|Name(k)| == 11 ==> Name(k)[5] == Name(m)[5]);
  }

  predicate PlainSetting(s: (string, string))
  {
    s.0 != "" && Plain(s.0) && Plain(s.1)
  }

  lemma {:induction false} PresentIsPlain(opts: seq<Opt>)
    requires forall o <- opts :: PlainOpt(o)
    ensures forall s <- Present(opts) :: PlainSetting(s)
  {
    hide Plain, Name;
    if opts != [] {
      assert opts[0] in opts;
      PresentIsPlain(opts[1..]);
      NameIsPlain(opts[0].keyword);
    }
  }

  /** The printed settings are a space and the space-joined tokens. */
  lemma {:induction false} BindIsJoin(opts: seq<Opt>)
    ensures BindText(opts) == if Present(opts) == [] then "" else " " + Join(Tokens(Present(opts)), ' ')
  {
    if opts != [] {
      BindIsJoin(opts[1..]);
      var rest := Present(opts[1..]);
      if opts[0].value.Some? {
        var k, v := Name(opts[0].keyword), opts[0].value.value;
        var settings := [(k, v)] + rest;
        assert settings[1..] == rest;
        assert Tokens(settings) == [k, v] + Tokens(rest);
        JoinTwo(k, v, Tokens(rest));
      } else {
        assert [] + rest == rest;
      }
    }
  }

  lemma JoinTwo(k: string, v: string, rest: seq<string>)
    ensures " " + Join([k, v] + rest, ' ') == (" " + k + " " + v) + if rest == [] then "" else " " + Join(rest, ' ')
  {
    var all := [k, v] + rest;
    assert all[1..] == [v] + rest;
    assert all[1..][1..] == rest;
    var tail := Join([v] + rest, ' ');
    assert tail == v + if rest == [] then "" else " " + Join(rest, ' ');
    assert " " + (k + " " + tail) == " " + k + " " + tail;
  }

  /** The tokens that survive the strip: an empty last value vanishes. */
  function Kept(settings: seq<(string, string)>): seq<string>
    requires settings != []
  {
    var tokens := Tokens(settings);
    if |tokens| > 0 && tokens[|tokens| - 1] == "" then tokens[..|tokens| - 1] else tokens
  }

  lemma PairsCons(a: string, b: string, rest: seq<string>)
    ensures Pairs([a, b] + rest) == [(a, b)] + Pairs(rest)
  {
    assert ([a, b] + rest)[2..] == rest;
  }

  lemma PairsOfOne(setting: (string, string))
    ensures Pairs(Tokens([setting])) == [setting] && Pairs(Kept([setting])) == [setting]
  {
    assert [setting][1..] == [] && Tokens([setting]) == [setting.0, setting.1] + [];
    PairsCons(setting.0, setting.1, []);
    if setting.1 == "" {
      assert Kept([setting]) == [setting.0];
    }
  }

  lemma TokensCons(settings: seq<(string, string)>)
    requires |settings| > 1
    ensures Tokens(settings) == [settings[0].0, settings[0].1] + Tokens(settings[1..])
    ensures Kept(settings) == [settings[0].0, settings[0].1] + Kept(settings[1..])
  {
    var front, rest := [settings[0].0, settings[0].1], Tokens(settings[1..]);
    assert |rest| > 0;
    DropLast(front, rest);
  }

  lemma DropLast(front: seq<string>, rest: seq<string>)
    requires rest != []
    ensures var all := front + rest;
      all[|all| - 1] == rest[|rest| - 1] && all[..|all| - 1] == front + rest[..|rest| - 1]
  {
  }

  lemma {:induction false} PairsOfTokens(settings: seq<(string, string)>)
    requires settings != []
    ensures Pairs(Tokens(settings)) == settings && Pairs(Kept(settings)) == settings
  {
    hide Pairs, Tokens, Kept;
    if |settings| == 1 {
      assert settings == [settings[0]];
      PairsOfOne(settings[0]);
    } else {
      TokensCons(settings);
      PairsOfTokens(settings[1..]);
      PairsCons(settings[0].0, settings[0].1, Tokens(settings[1..]));
      PairsCons(settings[0].0, settings[0].1, Kept(settings[1..]));
      assert settings == [settings[0]] + settings[1..];
    }
  }

  lemma {:induction false} TokensFacts(settings: seq<(string, string)>)
    requires settings != [] && forall s <- settings :: PlainSetting(s)
    ensures |Tokens(settings)| >= 2 && Tokens(settings)[0] != ""
    ensures forall t <- Tokens(settings) :: Plain(t)
    ensures Tokens(settings)[|Tokens(settings)| - 2] != ""
    ensures Pairs(Tokens(settings)) == settings && Pairs(Kept(settings)) == settings
  {
    hide Plain, Pairs, Kept;
    PairsOfTokens(settings);
    assert settings[0] in settings;
    if |settings| == 1 {
      assert Tokens(settings[1..]) == [];
    } else {
      TokensFacts(settings[1..]);
    }
  }

  function Last<T>(s: seq<T>): T
    requires s != []
  {
    s[|s| - 1]
  }

  lemma {:induction false} JoinEnds(tokens: seq<string>)
    requires tokens != [] && tokens[0] != "" && tokens[|tokens| - 1] != ""
    ensures Join(tokens, ' ') != "" && Join(tokens, ' ')[0] == tokens[0][0]
    ensures Last(Join(tokens, ' ')) == Last(tokens[|tokens| - 1])
  {
    if |tokens| > 1 {
      JoinTail(tokens, tokens[1..]);
    }
  }

  lemma {:induction false} JoinTail(tokens: seq<string>, rest: seq<string>)
    requires |tokens| > 1 && rest == tokens[1..] && tokens[|tokens| - 1] != ""
    ensures Join(tokens, ' ') != "" && Last(Join(tokens, ' ')) == Last(tokens[|tokens| - 1])
    decreases |tokens|
  {
    if |rest| > 1 {
      JoinTail(rest, rest[1..]);
    }
  }

  lemma {:induction false} JoinEmptyLast(tokens: seq<string>)
    requires tokens != []
    ensures Join(tokens + [""], ' ') == Join(tokens, ' ') + " "
  {
    var all := tokens + [""];
    if |tokens| == 1 {
      assert all[1..] == [""];
    } else {
      JoinEmptyLast(tokens[1..]);
      assert all[1..] == tokens[1..] + [""];
    }
  }

  lemma SpaceIsBlank(post: string)
    requires forall c <- post :: RubyBlank(c)
    ensures forall c <- " " + post :: RubyBlank(c)
  {
  }

  lemma StripSpaced(core: string, post: string)
    requires core != "" && !RubyBlank(core[0]) && !RubyBlank(Last(core))
    requires forall c <- post :: RubyBlank(c)
    ensures Strip(" " + core + post) == core && Strip(" " + (core + " ") + post) == core
  {
    SpaceIsBlank("");
    SpaceIsBlank(post);
    hide RubyBlank, Strip;
    assert " " + "" == " ";
    StripIs(" ", core, post);
    StripIs(" ", core, " " + post);
    Assoc(" " + core, " ", post);
    Assoc(" ", core, " ");
  }

  /** strip leaves the kept tokens, joined. */
  lemma StripBind(settings: seq<(string, string)>, post: string)
    requires settings != [] && forall s <- settings :: PlainSetting(s)
    requires forall c <- post :: RubyBlank(c)
    ensures Strip(" " + Join(Tokens(settings), ' ') + post) == Join(Kept(settings), ' ')
  {
    KeptFacts(settings);
    hide Tokens, Kept, Join, Strip, RubyBlank, PlainSetting;
    var tokens, kept := Tokens(settings), Kept(settings);
    JoinEnds(kept);
    StripSpaced(Join(kept, ' '), post);
    if kept != tokens {
      JoinEmptyLast(kept);
    }
  }

  /** The kept tokens start and end with visible characters. */
  lemma KeptFacts(settings: seq<(string, string)>)
    requires settings != [] && forall s <- settings :: PlainSetting(s)
    ensures var kept := Kept(settings);
      && kept != [] && (Tokens(settings) == kept || Tokens(settings) == kept + [""])
      && kept[0] != "" && !RubyBlank(kept[0][0])
      && Last(kept) != "" && !RubyBlank(Last(Last(kept)))
  {
    TokensFacts(settings);
    var tokens, kept := Tokens(settings), Kept(settings);
    assert kept[0] in tokens && Last(kept) in tokens;
    assert kept[0][0] in kept[0];
    assert Last(Last(kept)) in Last(kept);
  }

  lemma SplitKept(settings: seq<(string, string)>)
    requires settings != [] && forall s <- settings :: PlainSetting(s)
    ensures Split(Join(Kept(settings), ' '), ' ') == Kept(settings)
    ensures ']' !in Join(Kept(settings), ' ') && '\n' !in Join(Kept(settings), ' ')
  {
    TokensFacts(settings);
    forall t | t in Kept(settings) ensures ' ' !in t && forall c <- t :: PlainChar(c) {
      assert t in Tokens(settings);
    }
    SplitOfJoin(Kept(settings), ' ');
    JoinChars(Kept(settings), ' ', PlainChar);
  }

  lemma {:induction false} FilterTextIsJoin(filters: seq<string>)
    ensures FilterText(filters) == if filters == [] then "" else " " + Join(filters, ' ')
  {
    if |filters| == 1 {
      assert FilterText(filters[1..]) == "";
    } else if filters != [] {
      FilterTextIsJoin(filters[1..]);
      assert " " + filters[0] + (" " + Join(filters[1..], ' ')) == " " + (filters[0] + " " + Join(filters[1..], ' '));
    }
  }

  lemma FilterListBack(filters: seq<string>)
    requires forall f <- filters :: Plain(f)
    ensures FilterList(FilterText(filters)) == filters
    ensures var t := FilterText(filters); t == "" || (t[0] == ' ' && (|t| > 1 ==> t[1] != '['))
  {
    FilterTextIsJoin(filters);
    if filters != [] {
      forall f | f in filters ensures ' ' !in f {
      }
      SplitOfJoin(filters, ' ');
      JoinChars(filters, ' ', PlainChar);
      var t, j := FilterText(filters), Join(filters, ' ');
      assert t[1..] == j;
      if j != "" {
        assert j[0] in j && t[1] == j[0];
      }
    }
  }

  predicate PlainItems(items: seq<string>)
  {
    items != [] && forall x <- items :: Plain(x) && ',' !in x
  }

  predicate PlainValue(o: Option<string>)
  {
    o.Some? ==> Plain(o.value)
  }

  /** The entries whose line can be read back. */
  predicate PlainEntry(e: Entry)
  {
    && PlainValue(e.verify) && PlainValue(e.ciphers) && PlainValue(e.ciphersuites)
    && PlainValue(e.minVersion) && PlainValue(e.maxVersion)
    && (e.alpn.Some? ==> PlainItems(e.alpn.value))
    && forall f <- Filters(e.sni) :: Plain(f)
  }

  lemma FilePathIsPlain(dir: Dir, kind: Kind, i: nat)
    ensures Plain(FilePath(dir, kind, i)) && ' ' !in FilePath(dir, kind, i)
  {
    assert Plain(KindName(kind)) && Plain(Decimal.Print(i)) && Plain("-") && Plain(".pem");
  }

  lemma OptionsArePlain(dir: Dir, i: nat, e: Entry)
    requires PlainEntry(e)
    ensures forall o <- Options(dir, i, e) :: PlainOpt(o)
  {
    FilePathIsPlain(dir, ClientCa, i);
    FilePathIsPlain(dir, Revocations, i);
    if e.alpn.Some? {
      JoinChars(e.alpn.value, ',', PlainChar);
    }
  }

  lemma DecodePlainPath(path: string, bracket: string, filters: seq<string>)
    requires ' ' !in path && forall f <- filters :: Plain(f)
    requires bracket == ""
    ensures Decode(path + (bracket + FilterText(filters))) == Parsed(path, [], filters)
  {
    var rest := FilterText(filters);
    assert bracket + rest == rest;
    FilterListBack(filters);
    assert forall c <- path :: NotSpace(c);
    SpanAppend(path, rest, NotSpace);
    TakeDrop(path, rest);
  }

  lemma DecodeBracketed(path: string, core: string, filters: seq<string>)
    requires ' ' !in path && ']' !in core && forall f <- filters :: Plain(f)
    ensures Decode(path + (" [" + core + "]" + FilterText(filters))) == Parsed(path, Pairs(Split(core, ' ')), filters)
  {
    hide FilterText, FilterList, Split, Pairs, Span, Plain;
    var text := FilterText(filters);
    FilterListBack(filters);
    var body := core + ("]" + text);
    var rest := " [" + body;
    Assoc(" [", core, "]");
    Assoc(" [" + core, "]", text);
    Assoc(" [", core, "]" + text);
    assert " [" + core + "]" + text == rest;
    SpaceSpan(path, rest);
    TakeDrop(path, rest);
    TakeDrop(" [", body);
    CloseSpan(core, text);
  }

  lemma SpaceSpan(path: string, rest: string)
    requires ' ' !in path && rest != "" && rest[0] == ' '
    ensures Span(path + rest, NotSpace) == |path|
  {
    assert forall c <- path :: NotSpace(c);
    SpanAppend(path, rest, NotSpace);
  }

  lemma CloseSpan(core: string, text: string)
    requires ']' !in core
    ensures var body := core + ("]" + text);
      Span(body, NotClose) == |core| && body[..|core|] == core && body[|core| + 1..] == text
  {
    assert forall c <- core :: NotClose(c);
    SpanAppend(core, "]" + text, NotClose);
    hide Span;
    TakeDrop(core, "]" + text);
    DropTwo(core, "]", text);
  }

  lemma BracketIs(dir: Dir, i: nat, e: Entry)
    requires PlainEntry(e)
    ensures var settings := Present(Options(dir, i, e));
      Bracket(BindText(Options(dir, i, e)) + if e.alpn.Some? then " " else "")
        == if settings == [] then "" else " [" + Join(Kept(settings), ' ') + "]"
    ensures forall s <- Present(Options(dir, i, e)) :: PlainSetting(s)
  {
    var opts := Options(dir, i, e);
    var settings := Present(opts);
    OptionsArePlain(dir, i, e);
    PresentIsPlain(opts);
    BindIsJoin(opts);
    var post := if e.alpn.Some? then " " else "";
    if settings == [] {
      AlpnIsPresent(dir, i, e);
      assert BindText(opts) + post == "";
    } else {
      StripBind(settings, post);
    }
  }

  /** Reading a printed line gives back its path, the settings present in order, and the filters. */
  lemma DecodeOfLine(dir: Dir, i: nat, e: Entry)
    requires PlainEntry(e)
    ensures Decode(Line(dir, i, e)) == Parsed(FilePath(dir, Cert, i), Present(Options(dir, i, e)), Filters(e.sni))
  {
    var path, filters := FilePath(dir, Cert, i), Filters(e.sni);
    var settings := Present(Options(dir, i, e));
    FilePathIsPlain(dir, Cert, i);
    BracketIs(dir, i, e);
    if settings == [] {
      DecodePlainPath(path, "", filters);
    } else {
      SplitKept(settings);
      TokensFacts(settings);
      DecodeBracketed(path, Join(Kept(settings), ' '), filters);
    }
  }

  lemma FiltersAreOneLine(filters: seq<string>)
    requires forall f <- filters :: Plain(f)
    ensures '\n' !in FilterText(filters)
  {
    FilterTextIsJoin(filters);
    if filters != [] {
      JoinChars(filters, ' ', PlainChar);
    }
  }

  lemma BracketIsOneLine(dir: Dir, i: nat, e: Entry)
    requires PlainEntry(e)
    ensures '\n' !in Bracket(BindText(Options(dir, i, e)) + if e.alpn.Some? then " " else "")
  {
    hide Options, BindText, Bracket, Present, Kept;
    BracketIs(dir, i, e);
    var settings := Present(Options(dir, i, e));
    if settings != [] {
      SplitKept(settings);
    }
  }

  /** A printed line holds no line break. */
  lemma LineIsOneLine(dir: Dir, i: nat, e: Entry)
    requires PlainEntry(e)
    ensures '\n' !in Line(dir, i, e)
  {
    hide Options, BindText, Bracket, FilterText, FilePath;
    FilePathIsPlain(dir, Cert, i);
    FiltersAreOneLine(Filters(e.sni));
    BracketIsOneLine(dir, i, e);
  }

  lemma {:induction false} PresentHolds(opts: seq<Opt>, k: nat)
    requires k < |opts| && opts[k].value.Some?
    ensures (Name(opts[k].keyword), opts[k].value.value) in Present(opts)
  {
    if k > 0 {
      PresentHolds(opts[1..], k - 1);
    }
  }

  lemma AlpnIsPresent(dir: Dir, i: nat, e: Entry)
    ensures e.alpn.Some? ==> Present(Options(dir, i, e)) != []
  {
    if e.alpn.Some? {
      PresentHolds(Options(dir, i, e), 7);
    }
  }

  /** The value read under a keyword. */
  function Find(settings: seq<(string, string)>, keyword: string): Option<string>
  {
    if settings == [] then None
    else if settings[0].0 == keyword then Some(settings[0].1)
    else Find(settings[1..], keyword)
  }

  lemma {:induction false} FindPresent(opts: seq<Opt>, k: nat)
    requires k < |opts| && DistinctKeywords(opts)
    ensures Find(Present(opts), Name(opts[k].keyword)) == opts[k].value
  {
    hide Name;
    var rest := Present(opts[1..]);
    if opts[0].value.Some? {
      assert Present(opts)[1..] == rest;
    } else {
      assert Present(opts) == rest;
    }
    if k > 0 {
      FindPresent(opts[1..], k - 1);
      if Name(opts[0].keyword) == Name(opts[k].keyword) {
        NameInjective(opts[0].keyword, opts[k].keyword);
      }
    } else {
      FindAbsent(opts[1..], opts[0].keyword);
    }
  }

  lemma {:induction false} FindAbsent(opts: seq<Opt>, keyword: Keyword)
    requires forall o <- opts :: o.keyword != keyword
    ensures Find(Present(opts), Name(keyword)) == None
  {
    hide Name;
    if opts != [] {
      assert opts[0] in opts;
      FindAbsent(opts[1..], keyword);
      if opts[0].value.Some? {
        assert Present(opts)[1..] == Present(opts[1..]);
        if Name(opts[0].keyword) == Name(keyword) {
          NameInjective(opts[0].keyword, keyword);
        }
      } else {
        assert Present(opts) == Present(opts[1..]);
      }
    }
  }

  lemma SettingFound(dir: Dir, i: nat, e: Entry, k: nat)
    requires PlainEntry(e) && k < 8
    ensures Find(Decode(Line(dir, i, e)).settings, Name(OptionAt(dir, i, e, k).keyword)) == OptionAt(dir, i, e, k).value
  {
    hide Line, Decode, Present, Find, OptionAt, Name;
    DecodeOfLine(dir, i, e);
    KeywordsAreDistinct(dir, i, e);
    FindPresent(Options(dir, i, e), k);
  }

  /** Each configured value is read back under its haproxy keyword, and only configured ones are. */
  lemma SettingsReadBack(dir: Dir, i: nat, e: Entry)
    requires PlainEntry(e)
    ensures var s := Decode(Line(dir, i, e)).settings;
      && Find(s, "ca-file") == FileIf(e.clientCa, FilePath(dir, ClientCa, i))
      && Find(s, "crl-file") == FileIf(e.revocations, FilePath(dir, Revocations, i))
      && Find(s, "verify") == e.verify && Find(s, "ciphers") == e.ciphers
      && Find(s, "ciphersuites") == e.ciphersuites
      && Find(s, "ssl-min-ver") == e.minVersion && Find(s, "ssl-max-ver") == e.maxVersion
      && Find(s, "alpn") == if e.alpn.Some? then Some(Join(e.alpn.value, ',')) else None
  {
    hide Line, Decode, Find, FilePath;
    forall k: nat | k < 8
      ensures var o := OptionAt(dir, i, e, k); Find(Decode(Line(dir, i, e)).settings, Name(o.keyword)) == o.value
    {
      SettingFound(dir, i, e, k);
    }
    assert OptionAt(dir, i, e, 0).keyword == CaFile && OptionAt(dir, i, e, 1).keyword == CrlFile
        && OptionAt(dir, i, e, 2).keyword == Verify && OptionAt(dir, i, e, 3).keyword == Ciphers
        && OptionAt(dir, i, e, 4).keyword == Ciphersuites && OptionAt(dir, i, e, 5).keyword == SslMinVer
        && OptionAt(dir, i, e, 6).keyword == SslMaxVer && OptionAt(dir, i, e, 7).keyword == Alpn;
  }

  /** The path is the numbered certificate, and the filters are those given, in order. */
  lemma PathAndFiltersReadBack(dir: Dir, i: nat, e: Entry)
    requires PlainEntry(e)
    ensures var p := Decode(Line(dir, i, e));
      && p.path == FilePath(dir, Cert, i)
      && match e.sni
         case NoFilter => p.filters == []
         case One(f) => p.filters == [f]
         case Many(fs) => p.filters == fs
  {
    hide Line, Decode, FilePath, Present, Options;
    DecodeOfLine(dir, i, e);
  }

  // ---------- lines are uniquely decodable ----------

  predicate SameKeywords(a: seq<Opt>, b: seq<Opt>)
  {
    |a| == |b| && forall k :: 0 <= k < |a| ==> a[k].keyword == b[k].keyword
  }

  predicate DistinctKeywords(a: seq<Opt>)
  {
    forall k, m :: 0 <= k < m < |a| ==> a[k].keyword != a[m].keyword
  }

  lemma {:induction false} PresentFrom(opts: seq<Opt>)
    ensures forall s <- Present(opts) :: exists k :: 0 <= k < |opts| && Name(opts[k].keyword) == s.0
  {
    if opts != [] {
      PresentFrom(opts[1..]);
      forall s | s in Present(opts) ensures exists k :: 0 <= k < |opts| && Name(opts[k].keyword) == s.0 {
        if s in Present(opts[1..]) {
          var k :| 0 <= k < |opts[1..]| && Name(opts[1..][k].keyword) == s.0;
          assert Name(opts[k + 1].keyword) == s.0;
        } else {
          assert Name(opts[0].keyword) == s.0;
        }
      }
    }
  }

  lemma HeadTells(a: seq<Opt>, b: seq<Opt>)
    requires SameKeywords(a, b) && DistinctKeywords(a) && a != []
    requires a[0].value.Some? && b[0].value.None?
    ensures Present(a) != Present(b)
  {
    PresentFrom(b[1..]);
    assert Present(b) == Present(b[1..]);
    assert Present(a)[0].0 == Name(b[0].keyword);
    forall s | s in Present(b) ensures s.0 != Name(b[0].keyword) {
      var k :| 0 <= k < |b[1..]| && Name(b[1..][k].keyword) == s.0;
      assert a[k + 1].keyword == b[k + 1].keyword == b[1..][k].keyword;
      if s.0 == Name(b[0].keyword) {
        NameInjective(b[k + 1].keyword, b[0].keyword);
      }
    }
    assert Present(a)[0] in Present(a);
  }

  lemma {:induction false} PresentInjective(a: seq<Opt>, b: seq<Opt>)
    requires SameKeywords(a, b) && DistinctKeywords(a) && Present(a) == Present(b)
    ensures a == b
  {
    if a != [] {
      if a[0].value.Some? && b[0].value.Some? {
        assert Present(a)[0] == Present(b)[0];
        assert Present(a)[1..] == Present(a[1..]) && Present(b)[1..] == Present(b[1..]);
        PresentInjective(a[1..], b[1..]);
      } else if a[0].value.None? && b[0].value.None? {
        assert Present(a) == Present(a[1..]) && Present(b) == Present(b[1..]);
        PresentInjective(a[1..], b[1..]);
      } else if a[0].value.Some? {
        HeadTells(a, b);
      } else {
        HeadTells(b, a);
      }
    }
  }

  lemma KeywordsAreDistinct(dir: Dir, i: nat, e: Entry)
    ensures DistinctKeywords(Options(dir, i, e))
  {
  }

  lemma FilePathInjective(dir: Dir, kind: Kind, i: nat, kind': Kind, j: nat)
    requires FilePath(dir, kind, i) == FilePath(dir, kind', j)
    ensures kind == kind' && i == j
  {
    hide KindName, Decimal.Print, Plain;
    var k, k' := KindName(kind), KindName(kind');
    var a, b := k + ("-" + (Decimal.Print(i) + ".pem")), k' + ("-" + (Decimal.Print(j) + ".pem"));
    TakeDrop(dir, a);
    TakeDrop(dir, b);
    var c, d := k + ['-'] + Decimal.Print(i), k' + ['-'] + Decimal.Print(j);
    Assoc(k, ['-'] + Decimal.Print(i), ".pem");
    Assoc(k', ['-'] + Decimal.Print(j), ".pem");
    assert a == c + ".pem" && b == d + ".pem";
    TakeDrop(c, ".pem");
    TakeDrop(d, ".pem");
    assert c == d;
    CutAtLast(k, Decimal.Print(i), k', Decimal.Print(j), '-');
    Decimal.PrintInjective(i, j);
    KindNameInjective(kind, kind');
  }

  lemma KindNameInjective(kind: Kind, kind': Kind)
    requires KindName(kind) == KindName(kind')
    ensures kind == kind'
  {
    assert |KindName(kind)| == |KindName(kind')|;
  }

  /** Equal lines come from the same index, the same settings and the same filters; a client CA
      or revocation list is determined up to its content, which lives in its own file. */
  lemma LineDeterminesEntry(dir: Dir, i: nat, e: Entry, j: nat, e': Entry)
    requires PlainEntry(e) && PlainEntry(e') && Line(dir, i, e) == Line(dir, j, e')
    ensures i == j && Filters(e.sni) == Filters(e'.sni)
    ensures e.clientCa.Some? == e'.clientCa.Some? && e.revocations.Some? == e'.revocations.Some?
    ensures e.verify == e'.verify && e.ciphers == e'.ciphers && e.ciphersuites == e'.ciphersuites
    ensures e.minVersion == e'.minVersion && e.maxVersion == e'.maxVersion && e.alpn == e'.alpn
  {
    hide Line, Decode, FilePath, Present;
    DecodeOfLine(dir, i, e);
    DecodeOfLine(dir, j, e');
    FilePathInjective(dir, Cert, i, Cert, j);
    KeywordsAreDistinct(dir, i, e);
    var o, o' := Options(dir, i, e), Options(dir, j, e');
    PresentInjective(o, o');
    assert o[0] == o'[0] && o[1] == o'[1] && o[2] == o'[2] && o[3] == o'[3] && o[4] == o'[4] && o[5] == o'[5]
        && o[6] == o'[6] && o[7] == o'[7];
    if e.alpn.Some? {
      SplitOfJoin(e.alpn.value, ',');
      SplitOfJoin(e'.alpn.value, ',');
    }
  }
}
