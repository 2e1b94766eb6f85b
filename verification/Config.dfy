/** `bonghos.toml`: what `Save` prints and what `Load` reads back. */
module Config {
  import opened Text
  import opened Quoting

  datatype Settings = Settings(
    bindAddress: string, port: int, sessionHours: int,
    backupDirectory: string,
    allowInsecure: bool, hosts: seq<string>, maxUploadBytes: int, maxArchiveBytes: int, maxArchiveFiles: int,
    gracefulStop: int, freeSpaceReserve: int,
    metricsInterval: int, metricsRetention: int,
    logLevel: string)

  /** `Default`. */
  const DEFAULT := Settings("127.0.0.1", 8080, 72, "", false, [], 0x8_0000_0000, 0x10_0000_0000, 1000000,
                            120, 1024, 10, 14, "info")

  predicate Is64Bit(n: int) { -MAX_INT64 - 1 <= n <= MAX_INT64 }

  /** The numbers are 64-bit integers. */
  predicate Representable(c: Settings) {
    && Is64Bit(c.port) && Is64Bit(c.sessionHours) && Is64Bit(c.maxUploadBytes) && Is64Bit(c.maxArchiveBytes)
    && Is64Bit(c.maxArchiveFiles) && Is64Bit(c.gracefulStop) && Is64Bit(c.freeSpaceReserve)
    && Is64Bit(c.metricsInterval) && Is64Bit(c.metricsRetention)
  }

  // ----- keys ----------------------------------------------------------------

  datatype Key =
    | BindAddress | Port | SessionHours | BackupDirectory | AllowInsecure | Hosts
    | MaxUploadBytes | MaxArchiveBytes | MaxArchiveFiles | GracefulStop | FreeSpaceReserve
    | MetricsInterval | MetricsRetention | LogLevel

  function KeyName(k: Key): string {
    match k
    case BindAddress => "bind_address"
    case Port => "port"
    case SessionHours => "session_hours"
    case BackupDirectory => "backup_directory"
    case AllowInsecure => "allow_insecure_http_url"
    case Hosts => "trusted_download_hosts"
    case MaxUploadBytes => "max_upload_bytes"
    case MaxArchiveBytes => "max_archive_bytes"
    case MaxArchiveFiles => "max_archive_files"
    case GracefulStop => "graceful_stop_seconds"
    case FreeSpaceReserve => "free_space_reserve_mb"
    case MetricsInterval => "metrics_interval_seconds"
    case MetricsRetention => "metrics_retention_days"
    case LogLevel => "log_level"
  }

  /** The `switch` over the key of a line. */
  function KeyNamed(name: string): Option<Key> {
    if k: Key :| KeyName(k) == name then Some(k) else None
  }

  // ----- reading -------------------------------------------------------------

  function TrimSet(s: string, cutset: set<char>): string {
    if s != [] && s[0] in cutset then TrimSet(s[1..], cutset) else TrimEnd(s, cutset)
  }

  function TrimEnd(s: string, cutset: set<char>): string {
    if s != [] && s[|s| - 1] in cutset then TrimEnd(s[..|s| - 1], cutset) else s
  }

  /** A value with its quotes undone, or failing that with outer quotes cut off. */
  function Unquoted(v: string): string {
    if Unquote(v).Some? then Unquote(v).value else TrimSet(v, {'"'})
  }

  function IntOr(v: string, previous: int): int {
    if Atoi(v).Some? then Atoi(v).value else previous
  }

  function HostsIn(parts: seq<string>): seq<string> {
    if parts == [] then []
    else
      var h := TrimSet(TrimSpace(parts[0]), {'"'});
      (if h == "" then [] else [h]) + HostsIn(parts[1..])
  }

  function ParseHosts(v: string): seq<string> {
    HostsIn(Split(TrimSet(v, {'[', ']'}), ','))
  }

  function Assign(c: Settings, k: Key, v: string): Settings {
    match k
    case BindAddress => c.(bindAddress := v)
    case Port => c.(port := IntOr(v, c.port))
    case SessionHours => c.(sessionHours := IntOr(v, c.sessionHours))
    case BackupDirectory => c.(backupDirectory := v)
    case AllowInsecure => c.(allowInsecure := v == "true")
    case Hosts => c.(hosts := c.hosts + ParseHosts(v))
    case MaxUploadBytes => c.(maxUploadBytes := IntOr(v, c.maxUploadBytes))
    case MaxArchiveBytes => c.(maxArchiveBytes := IntOr(v, c.maxArchiveBytes))
    case MaxArchiveFiles => c.(maxArchiveFiles := IntOr(v, c.maxArchiveFiles))
    case GracefulStop => c.(gracefulStop := IntOr(v, c.gracefulStop))
    case FreeSpaceReserve => c.(freeSpaceReserve := IntOr(v, c.freeSpaceReserve))
    case MetricsInterval => c.(metricsInterval := IntOr(v, c.metricsInterval))
    case MetricsRetention => c.(metricsRetention := IntOr(v, c.metricsRetention))
    case LogLevel => c.(logLevel := v)
  }

  /** One line of the loop in `Load`. */
  function ReadLine(c: Settings, line: string): Settings {
    var t := TrimSpace(line);
    if t == "" || t[0] == '#' || t[0] == '[' then c
    else
      match Cut(t, '=')
      case None => c
      case Some(kv) =>
        var k := KeyNamed(TrimSpace(kv.0));
        if k.None? then c else Assign(c, k.value, Unquoted(TrimSpace(kv.1)))
  }

  function ReadLines(c: Settings, lines: seq<string>): Settings
    decreases |lines|
  {
    if lines == [] then c else ReadLines(ReadLine(c, lines[0]), lines[1..])
  }

  /** `Load`: the defaults when there is no file. */
  method Load(file: Option<string>) returns (c: Settings)
    ensures c == if file.None? then DEFAULT else ReadLines(DEFAULT, Split(file.value, '\n'))
  {
    hide ReadLine, Split;
    c := DEFAULT;
    if file.None? { return; }
    var lines := Split(file.value, '\n');
    assert lines[0..] == lines;
    for i := 0 to |lines|
      invariant ReadLines(c, lines[i..]) == ReadLines(DEFAULT, lines)
    {
      assert lines[i..][1..] == lines[i + 1..];
      c := ReadLine(c, lines[i]);
    }
  }

  // ----- writing -------------------------------------------------------------

  function PrintInt(n: int): string {
    if n < 0 then ['-'] + Itoa(-n) else Itoa(n)
  }

  function PrintBool(b: bool): string { if b then "true" else "false" }

  /** `strings.Join(hosts, ", ")` of the quoted hosts, cut at its commas. */
  function HostParts(shown: Printable, hosts: seq<string>): (parts: seq<string>)
    ensures |parts| == |hosts|
    ensures forall i :: 0 <= i < |hosts| ==> parts[i] == (if i == 0 then [] else [' ']) + Quote(shown, hosts[i])
  {
    seq(|hosts|, i requires 0 <= i < |hosts| => (if i == 0 then [] else [' ']) + Quote(shown, hosts[i]))
  }

  function PrintHosts(shown: Printable, hosts: seq<string>): string {
    ['['] + Join(HostParts(shown, hosts), ',') + [']']
  }

  function Setting(k: Key, v: string): string {
    KeyName(k) + [' '] + ['='] + ([' '] + v)
  }

  /** Three lines; the file is written down in such pieces. */
  function Three(x: string, y: string, z: string): seq<string> { [x, y, z] }

  function Head(shown: Printable, c: Settings): seq<string> {
    Three("# Bonghos configuration", "", "[web]")
    + Three(Setting(BindAddress, Quote(shown, c.bindAddress)),
            Setting(Port, PrintInt(c.port)),
            Setting(SessionHours, PrintInt(c.sessionHours)))
    + Three("", "[backups]", Setting(BackupDirectory, Quote(shown, c.backupDirectory)))
  }

  function Downloads(shown: Printable, c: Settings): seq<string> {
    Three("", "[downloads]", Setting(AllowInsecure, PrintBool(c.allowInsecure)))
    + Three(Setting(Hosts, PrintHosts(shown, c.hosts)),
            Setting(MaxUploadBytes, PrintInt(c.maxUploadBytes)),
            Setting(MaxArchiveBytes, PrintInt(c.maxArchiveBytes)))
    + Three(Setting(MaxArchiveFiles, PrintInt(c.maxArchiveFiles)), "", "[runtime]")
  }

  function Tail(shown: Printable, c: Settings): seq<string> {
    Three(Setting(GracefulStop, PrintInt(c.gracefulStop)),
          Setting(FreeSpaceReserve, PrintInt(c.freeSpaceReserve)), "")
    + Three("[monitoring]",
            Setting(MetricsInterval, PrintInt(c.metricsInterval)),
            Setting(MetricsRetention, PrintInt(c.metricsRetention)))
    + Three("", "[logging]", Setting(LogLevel, Quote(shown, c.logLevel)))
    + [""]
  }

  /** The text `Save` writes. */
  function Saved(shown: Printable, c: Settings): string {
    Join(Head(shown, c) + Downloads(shown, c) + Tail(shown, c), '\n')
  }

  /** Settings as written. */
  lemma KnownSettings(k: Key, v: string)
    ensures Setting(k, v) == (
            match k
            case BindAddress => "bind_address"
            case Port => "port"
            case SessionHours => "session_hours"
            case BackupDirectory => "backup_directory"
            case AllowInsecure => "allow_insecure_http_url"
            case Hosts => "trusted_download_hosts"
            case MaxUploadBytes => "max_upload_bytes"
            case MaxArchiveBytes => "max_archive_bytes"
            case MaxArchiveFiles => "max_archive_files"
            case GracefulStop => "graceful_stop_seconds"
            case FreeSpaceReserve => "free_space_reserve_mb"
            case MetricsInterval => "metrics_interval_seconds"
            case MetricsRetention => "metrics_retention_days"
            case LogLevel => "log_level") + " = " + v
  {
    SettingText(KeyName(k), v);
  }

  lemma SettingText(name: string, v: string)
    ensures name + [' '] + ['='] + ([' '] + v) == name + " = " + v
  {
  }

  lemma KnownValues()
    ensures PrintInt(0) == "0" && PrintInt(-5) == "-5" && PrintBool(true) == "true" && PrintBool(false) == "false"
  {
  }

  // ----- one line back -------------------------------------------------------

  /** Length and one telling character of each key. */
  function Mark(k: Key): (int, char) {
    match k
    case BindAddress => (12, 'b')
    case Port => (4, 'p')
    case SessionHours => (13, 's')
    case BackupDirectory => (16, 'b')
    case AllowInsecure => (23, 'a')
    case Hosts => (22, 't')
    case MaxUploadBytes => (16, 'm')
    case MaxArchiveBytes => (17, 'b')
    case MaxArchiveFiles => (17, 'f')
    case GracefulStop => (21, 'g')
    case FreeSpaceReserve => (21, 'f')
    case MetricsInterval => (24, 'm')
    case MetricsRetention => (22, 'm')
    case LogLevel => (9, 'l')
  }

  lemma KeyHasMark(k: Key)
    ensures |KeyName(k)| == Mark(k).0
    ensures KeyName(k)[if Mark(k).0 == 17 then 12 else 0] == Mark(k).1
  {
  }

  lemma KeyIsNamed(k: Key)
    ensures KeyNamed(KeyName(k)) == Some(k)
  {
    forall j: Key | KeyName(j) == KeyName(k) ensures j == k {
      KeyHasMark(j);
      KeyHasMark(k);
      hide KeyName;
    }
    hide KeyName, Mark;
  }

  predicate KeyChar(c: char) { 'a' <= c <= 'z' || c == '_' }

  predicate PlainKey(n: string) {
    n != "" && forall i :: 0 <= i < |n| ==> KeyChar(n[i])
  }

  lemma KeyIsPlain(k: Key)
    ensures PlainKey(KeyName(k))
  {
    match k
    case BindAddress => assert PlainKey("bind_address");
    case Port => assert PlainKey("port");
    case SessionHours => assert PlainKey("session_hours");
    case BackupDirectory => assert PlainKey("backup_directory");
    case LogLevel => assert PlainKey("log_level");
    case AllowInsecure | Hosts | MaxUploadBytes | MaxArchiveBytes | MaxArchiveFiles => DownloadKeyIsPlain(k);
    case _ => RuntimeKeyIsPlain(k);
  }

  lemma DownloadKeyIsPlain(k: Key)
    requires k in {AllowInsecure, Hosts, MaxUploadBytes, MaxArchiveBytes, MaxArchiveFiles}
    ensures PlainKey(KeyName(k))
  {
    if k.AllowInsecure? {
      assert PlainKey("allow_insecure_http_url");
    } else if k.Hosts? {
      assert PlainKey("trusted_download_hosts");
    } else if k.MaxUploadBytes? {
      assert PlainKey("max_upload_bytes");
    } else if k.MaxArchiveBytes? {
      assert PlainKey("max_archive_bytes");
    } else {
      assert PlainKey("max_archive_files");
    }
  }

  lemma RuntimeKeyIsPlain(k: Key)
    requires k in {GracefulStop, FreeSpaceReserve, MetricsInterval, MetricsRetention}
    ensures PlainKey(KeyName(k))
  {
    if k.GracefulStop? {
      assert PlainKey("graceful_stop_seconds");
    } else if k.FreeSpaceReserve? {
      assert PlainKey("free_space_reserve_mb");
    } else if k.MetricsInterval? {
      assert PlainKey("metrics_interval_seconds");
    } else {
      assert PlainKey("metrics_retention_days");
    }
  }

  lemma KeysAreDistinct(k: Key)
    ensures KeyNamed(KeyName(k)) == Some(k)
    ensures var n := KeyName(k);
            n != "" && Trimmed(n) && '=' !in n && n[0] != '#' && n[0] != '[' && '\n' !in n
  {
    KeyIsNamed(k);
    KeyIsPlain(k);
    hide KeyName, KeyNamed;
    var n := KeyName(k);
    assert KeyChar(n[0]) && KeyChar(n[|n| - 1]);
  }

  /** A printed setting reads as its key and value. */
  lemma SettingReads(c: Settings, k: Key, v: string)
    requires v != "" && Trimmed(v)
    ensures ReadLine(c, Setting(k, v)) == Assign(c, k, Unquoted(v))
  {
    var name, line := KeyName(k), Setting(k, v);
    KeysAreDistinct(k);
    hide KeyName, KeyNamed, Unquoted, Assign;
    assert Trimmed(line) by { assert line[0] == name[0] && line[|line| - 1] == v[|v| - 1]; }
    TrimmedIsFixed(line);
    CutAt(name + [' '], '=', [' '] + v);
    TrimAround(name, v);
    hide TrimSpace, Cut;
  }

  lemma TrimAround(name: string, v: string)
    requires Trimmed(name) && Trimmed(v)
    ensures TrimSpace(name + [' ']) == name && TrimSpace([' '] + v) == v
  {
    assert (name + [' '])[..|name|] == name && ([' '] + v)[1..] == v;
    TrimmedIsFixed(name);
    TrimmedIsFixed(v);
    if name == [] { assert TrimLeft([' ']) == []; }
  }

  lemma AtoiPrinted(n: int)
    requires Is64Bit(n)
    ensures Atoi(PrintInt(n)) == Some(n) && Trimmed(PrintInt(n))
    ensures PrintInt(n) != "" && Unquoted(PrintInt(n)) == PrintInt(n)
    ensures '\n' !in PrintInt(n)
  {
    var digits := Itoa(if n < 0 then -n else n);
    hide Itoa;
    var s := PrintInt(n);
    assert forall i :: 0 <= i < |digits| ==> IsDigit(digits[i]);
    assert n < 0 ==> s[1..] == digits;
    assert IsDigit(s[|s| - 1]) && (IsDigit(s[0]) || s[0] == '-');
  }

  lemma QuotedReads(shown: Printable, s: string)
    requires !shown('\n')
    ensures var q := Quote(shown, s); Unquoted(q) == s && q != "" && Trimmed(q) && '\n' !in q
  {
    UnquoteQuote(shown, s);
    EscapeAddsNone(shown, s, '\n');
    hide Unquote, EscapeAll;
  }

  // ----- the host list -------------------------------------------------------

  /** A host the list format can carry. */
  predicate Plain(shown: Printable, h: string) {
    h != "" && forall i :: 0 <= i < |h| ==> Bare(shown, h[i]) && h[i] != ','
  }

  /** What comes back for one quoted host. */
  function HostBack(shown: Printable, h: string): string {
    TrimSet(Quote(shown, h), {'"'})
  }

  lemma TrimOuter(open: char, body: string, close: char, cutset: set<char>)
    requires open in cutset && close in cutset
    requires body != [] ==> body[0] !in cutset && body[|body| - 1] !in cutset
    ensures TrimSet([open] + body + [close], cutset) == body
  {
    var s := [open] + body + [close];
    assert s[1..] == body + [close];
    assert (body + [close])[..|body|] == body;
    if body == [] {
      assert [close][1..] == [] && s[1..] == [close];
      assert TrimSet([close], cutset) == TrimSet([], cutset) == [];
    } else {
      assert TrimSet(s[1..], cutset) == TrimEnd(body + [close], cutset) == TrimEnd(body, cutset);
    }
  }

  /** A host comes back as itself exactly when it needs no escapes. */
  lemma HostBackIff(shown: Printable, h: string)
    requires h != ""
    ensures HostBack(shown, h) == h <==> forall i :: 0 <= i < |h| ==> Bare(shown, h[i])
  {
    var body := EscapeAll(shown, h);
    EscapeIsIdentityIff(shown, h);
    EscapeStarts(shown, h);
    hide EscapeAll;
    if h[|h| - 1] == '"' {
      TrimSetEnds(Quote(shown, h), {'"'});
      assert !Bare(shown, h[|h| - 1]);
    } else {
      TrimOuter('"', body, '"', {'"'});
    }
  }

  lemma {:induction false} EscapeStarts(shown: Printable, s: string)
    requires s != ""
    ensures var e := EscapeAll(shown, s);
            e != [] && e[0] != '"' && (e[|e| - 1] == '"' <==> s[|s| - 1] == '"')
  {
    var e, rest := Escape(shown, s[0]), EscapeAll(shown, s[1..]);
    assert EscapeAll(shown, s) == e + rest && (|s| == 1 ==> rest == []);
    hide *;
    EscapeEnds(shown, s[0]);
    if |s| > 1 { EscapeStarts(shown, s[1..]); }
  }

  lemma EscapeEnds(shown: Printable, c: char)
    ensures var e := Escape(shown, c); e[0] != '"' && (e[|e| - 1] == '"' <==> c == '"')
  {
    HexEnds(c as nat, 2);
    HexEnds(c as nat, 4);
    HexEnds(c as nat, 8);
    hide Hex;
  }

  lemma HexEnds(n: nat, k: nat)
    requires k > 0
    ensures Hex(n, k)[k - 1] != '"'
  {
  }

  lemma {:induction false} TrimSetEnds(s: string, cutset: set<char>)
    ensures var t := TrimSet(s, cutset); t != [] ==> t[|t| - 1] !in cutset
    ensures forall x :: x in TrimSet(s, cutset) ==> x in s
  {
    if s != [] && s[0] in cutset { TrimSetEnds(s[1..], cutset); } else { TrimEndEnds(s, cutset); }
  }

  lemma {:induction false} TrimEndEnds(s: string, cutset: set<char>)
    ensures var t := TrimEnd(s, cutset); t != [] ==> t[|t| - 1] !in cutset
    ensures forall x :: x in TrimEnd(s, cutset) ==> x in s
  {
    if s != [] && s[|s| - 1] in cutset { TrimEndEnds(s[..|s| - 1], cutset); }
  }

  function Backs(shown: Printable, hosts: seq<string>): seq<string> {
    if hosts == [] then []
    else (if HostBack(shown, hosts[0]) == "" then [] else [HostBack(shown, hosts[0])]) + Backs(shown, hosts[1..])
  }

  lemma {:induction false} HostsInParts(shown: Printable, hosts: seq<string>, parts: seq<string>)
    requires |parts| == |hosts|
    requires forall i :: 0 <= i < |hosts| ==> parts[i] in {Quote(shown, hosts[i]), [' '] + Quote(shown, hosts[i])}
    ensures HostsIn(parts) == Backs(shown, hosts)
  {
    if hosts != [] {
      var q := Quote(shown, hosts[0]);
      assert Trimmed(q);
      TrimAround("", q);
      TrimmedIsFixed(q);
      HostsInParts(shown, hosts[1..], parts[1..]);
      hide TrimSpace, Quote, TrimSet;
    }
  }

  /** Without commas in the hosts the list splits back into its parts. */
  lemma HostListReads(shown: Printable, hosts: seq<string>)
    requires forall i :: 0 <= i < |hosts| ==> ',' !in hosts[i]
    ensures ParseHosts(PrintHosts(shown, hosts)) == Backs(shown, hosts)
  {
    hide Split, Join, TrimSet, HostsIn, Backs, Quote, ParseHosts, PrintHosts;
    if hosts == [] {
      NoHosts(shown);
    } else {
      var parts := HostParts(shown, hosts);
      SomeHosts(shown, hosts);
      forall i | 0 <= i < |hosts|
        ensures parts[i] in {Quote(shown, hosts[i]), [' '] + Quote(shown, hosts[i])}
      {
        assert [] + Quote(shown, hosts[i]) == Quote(shown, hosts[i]);
      }
      HostsInParts(shown, hosts, parts);
    }
  }

  lemma NoHosts(shown: Printable)
    ensures ParseHosts(PrintHosts(shown, [])) == Backs(shown, [])
  {
    TrimOuter('[', [], ']', {'[', ']'});
    SplitOfPart("", ',');
    assert Join(HostParts(shown, []), ',') == [];
    assert PrintHosts(shown, []) == ['['] + [] + [']'];
    assert TrimSet(TrimSpace(""), {'"'}) == "" && [""][1..] == [];
    assert HostsIn([""]) == [];
    hide Split, Join;
  }

  lemma SomeHosts(shown: Printable, hosts: seq<string>)
    requires hosts != [] && forall i :: 0 <= i < |hosts| ==> ',' !in hosts[i]
    ensures ParseHosts(PrintHosts(shown, hosts)) == HostsIn(HostParts(shown, hosts))
  {
    var parts := HostParts(shown, hosts);
    var body := Join(parts, ',');
    forall i | 0 <= i < |hosts| ensures ',' !in parts[i] && parts[i] != [] {
      EscapeAddsNone(shown, hosts[i], ',');
    }
    hide EscapeAll, Join, Split, HostsIn, TrimSet;
    JoinEnds(parts, ',');
    TrimOuter('[', body, ']', {'[', ']'});
    SplitJoin(parts, ',');
  }

  lemma {:induction false} JoinEnds(parts: seq<string>, sep: char)
    requires parts != [] && forall i :: 0 <= i < |parts| ==> parts[i] != []
    ensures var j, last := Join(parts, sep), parts[|parts| - 1];
            j != [] && j[0] == parts[0][0] && j[|j| - 1] == last[|last| - 1]
  {
    if |parts| > 1 { JoinEnds(parts[1..], sep); }
  }

  lemma PlainComesBack(shown: Printable, h: string)
    requires Plain(shown, h)
    ensures h != "" && HostBack(shown, h) == h
  {
    HostBackIff(shown, h);
    hide HostBack, Bare;
  }

  lemma {:induction false} BacksOfPlain(shown: Printable, hosts: seq<string>)
    requires forall i :: 0 <= i < |hosts| ==> Plain(shown, hosts[i])
    ensures Backs(shown, hosts) == hosts
  {
    hide Plain, HostBack;
    if hosts != [] {
      PlainComesBack(shown, hosts[0]);
      BacksOfPlain(shown, hosts[1..]);
      assert hosts == [hosts[0]] + hosts[1..];
    }
  }

  lemma {:induction false} BacksFixed(shown: Printable, hosts: seq<string>)
    ensures |Backs(shown, hosts)| <= |hosts|
    ensures Backs(shown, hosts) == hosts ==>
              forall i :: 0 <= i < |hosts| ==> hosts[i] != "" && HostBack(shown, hosts[i]) == hosts[i]
  {
    if hosts != [] {
      BacksFixed(shown, hosts[1..]);
      hide HostBack;
      if Backs(shown, hosts) == hosts {
        assert HostBack(shown, hosts[0]) != "";
        assert Backs(shown, hosts)[1..] == Backs(shown, hosts[1..]);
      }
    }
  }

  lemma {:induction false} HostsInHaveNoComma(parts: seq<string>)
    requires forall i :: 0 <= i < |parts| ==> ',' !in parts[i]
    ensures forall i :: 0 <= i < |HostsIn(parts)| ==> ',' !in HostsIn(parts)[i]
  {
    if parts != [] {
      TrimSpaceTrims(parts[0]);
      TrimSetEnds(TrimSpace(parts[0]), {'"'});
      HostsInHaveNoComma(parts[1..]);
      hide TrimSpace, TrimSet;
    }
  }

  /** The host list comes back exactly when every host is non-empty, printable and
      free of commas, double quotes and backslashes. */
  lemma HostsRoundTripIff(shown: Printable, hosts: seq<string>)
    ensures ParseHosts(PrintHosts(shown, hosts)) == hosts
            <==> forall i :: 0 <= i < |hosts| ==> Plain(shown, hosts[i])
  {
    hide HostBack, Quote, TrimSet, Split, PrintHosts;
    if forall i :: 0 <= i < |hosts| ==> ',' !in hosts[i] {
      HostListReads(shown, hosts);
      if forall i :: 0 <= i < |hosts| ==> Plain(shown, hosts[i]) {
        BacksOfPlain(shown, hosts);
      } else {
        BacksFixed(shown, hosts);
        forall i | 0 <= i < |hosts| && hosts[i] != "" && HostBack(shown, hosts[i]) == hosts[i]
          ensures Plain(shown, hosts[i])
        {
          HostBackIff(shown, hosts[i]);
        }
      }
    } else {
      var v := TrimSet(PrintHosts(shown, hosts), {'[', ']'});
      PartsHaveNoSeparator(v, ',');
      HostsInHaveNoComma(Split(v, ','));
    }
  }

  // ----- the whole file ------------------------------------------------------

  lemma HostsPrinted(shown: Printable, hosts: seq<string>)
    requires !shown('\n')
    ensures var v := PrintHosts(shown, hosts);
            v != "" && Trimmed(v) && '\n' !in v && Unquoted(v) == v
  {
    var v := PrintHosts(shown, hosts);
    forall i | 0 <= i < |hosts| ensures '\n' !in HostParts(shown, hosts)[i] {
      EscapeAddsNone(shown, hosts[i], '\n');
    }
    hide EscapeAll;
    JoinAvoids(HostParts(shown, hosts), ',', '\n');
    hide Join;
    assert v[0] == '[' && v[|v| - 1] == ']';
    assert Unquote(v).None?;
    assert TrimEnd(v, {'"'}) == v;
  }

  lemma {:induction false} JoinAvoids(parts: seq<string>, sep: char, c: char)
    requires c != sep && forall i :: 0 <= i < |parts| ==> c !in parts[i]
    ensures c !in Join(parts, sep)
  {
    if |parts| > 1 { JoinAvoids(parts[1..], sep, c); }
  }

  lemma {:induction false} ReadConcat(c: Settings, a: seq<string>, b: seq<string>)
    ensures ReadLines(c, a + b) == ReadLines(ReadLines(c, a), b)
    decreases |a|
  {
    hide ReadLine;
    if a == [] {
      assert a + b == b;
    } else {
      ReadConcat(ReadLine(c, a[0]), a[1..], b);
      assert (a + b)[1..] == a[1..] + b;
    }
  }

  lemma ReadThree(c: Settings, x: string, y: string, z: string)
    ensures ReadLines(c, Three(x, y, z)) == ReadLine(ReadLine(ReadLine(c, x), y), z)
  {
    hide ReadLine;
    assert [x, y, z][1..] == [y, z] && [y, z][1..] == [z] && [z][1..] == [];
    assert ReadLines(ReadLine(ReadLine(c, x), y), [z]) == ReadLine(ReadLine(ReadLine(c, x), y), z);
    assert ReadLines(ReadLine(c, x), [y, z]) == ReadLines(ReadLine(ReadLine(c, x), y), [z]);
  }

  lemma ReadThreeParts(c: Settings, p: seq<string>, q: seq<string>, r: seq<string>)
    ensures ReadLines(c, p + q + r) == ReadLines(ReadLines(ReadLines(c, p), q), r)
  {
    ReadConcat(c, p + q, r);
    ReadConcat(c, p, q);
    hide ReadLines;
  }

  /** Blank lines, comments and section headings change nothing. */
  lemma NoteReads(c: Settings, note: string)
    requires Trimmed(note) && (note == "" || note[0] == '#' || note[0] == '[')
    ensures ReadLine(c, note) == c
  {
  }

  lemma IntReads(c: Settings, k: Key, n: int)
    requires Is64Bit(n)
    ensures ReadLine(c, Setting(k, PrintInt(n))) == Assign(c, k, PrintInt(n))
    ensures forall other :: IntOr(PrintInt(n), other) == n
  {
    AtoiPrinted(n);
    hide PrintInt, Assign, Setting;
    SettingReads(c, k, PrintInt(n));
  }

  lemma TextReads(shown: Printable, c: Settings, k: Key, s: string)
    requires !shown('\n')
    ensures ReadLine(c, Setting(k, Quote(shown, s))) == Assign(c, k, s)
  {
    QuotedReads(shown, s);
    hide Quote, Assign, Setting;
    SettingReads(c, k, Quote(shown, s));
  }

  lemma BoolReads(c: Settings, b: bool)
    ensures ReadLine(c, Setting(AllowInsecure, PrintBool(b))) == c.(allowInsecure := b)
  {
    var v := PrintBool(b);
    assert TrimSet("true", {'"'}) == "true" && TrimSet("false", {'"'}) == "false";
    assert Unquoted(v) == v;
    SettingReads(c, AllowInsecure, v);
    hide Unquoted, Setting;
    assert "false" != "true";
  }

  lemma HostsRead(shown: Printable, a: Settings, hosts: seq<string>)
    requires !shown('\n')
    ensures ReadLine(a, Setting(Hosts, PrintHosts(shown, hosts))) ==
            a.(hosts := a.hosts + ParseHosts(PrintHosts(shown, hosts)))
  {
    HostsPrinted(shown, hosts);
    hide PrintHosts, ParseHosts, Unquoted, Setting, ReadLine;
    SettingReads(a, Hosts, PrintHosts(shown, hosts));
  }

  lemma HeadReads(shown: Printable, a: Settings, c: Settings)
    requires !shown('\n') && Representable(c)
    ensures ReadLines(a, Head(shown, c)) ==
            a.(bindAddress := c.bindAddress, port := c.port, sessionHours := c.sessionHours,
               backupDirectory := c.backupDirectory)
  {
    hide ReadLine, ReadLines, Setting, PrintInt, IntOr, Quote, Three;
    var bind, port, hours, dir := Setting(BindAddress, Quote(shown, c.bindAddress)), Setting(Port, PrintInt(c.port)),
      Setting(SessionHours, PrintInt(c.sessionHours)), Setting(BackupDirectory, Quote(shown, c.backupDirectory));
    var a1 := a.(bindAddress := c.bindAddress);
    var a2 := a1.(port := c.port);
    var a3 := a2.(sessionHours := c.sessionHours);
    ReadThreeParts(a, Three("# Bonghos configuration", "", "[web]"), Three(bind, port, hours),
                   Three("", "[backups]", dir));
    ReadThree(a, "# Bonghos configuration", "", "[web]");
    NoteReads(a, "# Bonghos configuration");
    NoteReads(a, "");
    NoteReads(a, "[web]");
    ReadThree(a, bind, port, hours);
    TextReads(shown, a, BindAddress, c.bindAddress);
    IntReads(a1, Port, c.port);
    IntReads(a2, SessionHours, c.sessionHours);
    ReadThree(a3, "", "[backups]", dir);
    NoteReads(a3, "");
    NoteReads(a3, "[backups]");
    TextReads(shown, a3, BackupDirectory, c.backupDirectory);
  }

  lemma DownloadsRead(shown: Printable, a: Settings, c: Settings)
    requires !shown('\n') && Representable(c)
    ensures ReadLines(a, Downloads(shown, c)) ==
            a.(allowInsecure := c.allowInsecure, hosts := a.hosts + ParseHosts(PrintHosts(shown, c.hosts)),
               maxUploadBytes := c.maxUploadBytes, maxArchiveBytes := c.maxArchiveBytes,
               maxArchiveFiles := c.maxArchiveFiles)
  {
    hide ReadLine, ReadLines, Setting, PrintInt, IntOr, PrintHosts, ParseHosts, PrintBool, Three;
    var allow, hosts, upload, archive, files := Setting(AllowInsecure, PrintBool(c.allowInsecure)),
      Setting(Hosts, PrintHosts(shown, c.hosts)), Setting(MaxUploadBytes, PrintInt(c.maxUploadBytes)),
      Setting(MaxArchiveBytes, PrintInt(c.maxArchiveBytes)), Setting(MaxArchiveFiles, PrintInt(c.maxArchiveFiles));
    var a1 := a.(allowInsecure := c.allowInsecure);
    var a2 := a1.(hosts := a.hosts + ParseHosts(PrintHosts(shown, c.hosts)));
    var a3 := a2.(maxUploadBytes := c.maxUploadBytes);
    var a4 := a3.(maxArchiveBytes := c.maxArchiveBytes);
    var a5 := a4.(maxArchiveFiles := c.maxArchiveFiles);
    ReadThreeParts(a, Three("", "[downloads]", allow), Three(hosts, upload, archive), Three(files, "", "[runtime]"));
    ReadThree(a, "", "[downloads]", allow);
    NoteReads(a, "");
    NoteReads(a, "[downloads]");
    BoolReads(a, c.allowInsecure);
    ReadThree(a1, hosts, upload, archive);
    HostsRead(shown, a1, c.hosts);
    IntReads(a2, MaxUploadBytes, c.maxUploadBytes);
    IntReads(a3, MaxArchiveBytes, c.maxArchiveBytes);
    ReadThree(a4, files, "", "[runtime]");
    IntReads(a4, MaxArchiveFiles, c.maxArchiveFiles);
    NoteReads(a5, "");
    NoteReads(a5, "[runtime]");
  }

  lemma TailReads(shown: Printable, a: Settings, c: Settings)
    requires !shown('\n') && Representable(c)
    ensures ReadLines(a, Tail(shown, c)) ==
            a.(gracefulStop := c.gracefulStop, freeSpaceReserve := c.freeSpaceReserve,
               metricsInterval := c.metricsInterval, metricsRetention := c.metricsRetention, logLevel := c.logLevel)
  {
    var a1 := a.(gracefulStop := c.gracefulStop);
    var a2 := a1.(freeSpaceReserve := c.freeSpaceReserve);
    var a3 := a2.(metricsInterval := c.metricsInterval);
    var a4 := a3.(metricsRetention := c.metricsRetention);
    var a5 := a4.(logLevel := c.logLevel);
    ReadLast(a5);
    hide ReadLine, ReadLines, Setting, PrintInt, IntOr, Quote, Three;
    var graceful, free, interval, retention, level := Setting(GracefulStop, PrintInt(c.gracefulStop)),
      Setting(FreeSpaceReserve, PrintInt(c.freeSpaceReserve)), Setting(MetricsInterval, PrintInt(c.metricsInterval)),
      Setting(MetricsRetention, PrintInt(c.metricsRetention)), Setting(LogLevel, Quote(shown, c.logLevel));
    var p, q, r := Three(graceful, free, ""), Three("[monitoring]", interval, retention), Three("", "[logging]", level);
    ReadConcat(a, p + q + r, [""]);
    ReadThreeParts(a, p, q, r);
    ReadThree(a, graceful, free, "");
    IntReads(a, GracefulStop, c.gracefulStop);
    IntReads(a1, FreeSpaceReserve, c.freeSpaceReserve);
    NoteReads(a2, "");
    ReadThree(a2, "[monitoring]", interval, retention);
    NoteReads(a2, "[monitoring]");
    IntReads(a2, MetricsInterval, c.metricsInterval);
    IntReads(a3, MetricsRetention, c.metricsRetention);
    ReadThree(a4, "", "[logging]", level);
    NoteReads(a4, "");
    NoteReads(a4, "[logging]");
    TextReads(shown, a4, LogLevel, c.logLevel);
  }

  lemma ReadLast(c: Settings)
    ensures ReadLines(c, [""]) == c
  {
  }

  // ----- no line end inside a line -------------------------------------------

  predicate OneLine(s: string) { '\n' !in s }

  lemma SettingIsOneLine(k: Key, v: string)
    requires OneLine(v)
    ensures OneLine(Setting(k, v))
  {
    KeysAreDistinct(k);
    hide KeyName;
  }

  predicate AllOneLine(lines: seq<string>) {
    forall i :: 0 <= i < |lines| ==> OneLine(lines[i])
  }

  lemma ThreeAreSingle(x: string, y: string, z: string)
    requires OneLine(x) && OneLine(y) && OneLine(z)
    ensures AllOneLine(Three(x, y, z))
  {
  }

  lemma ConcatSingle(a: seq<string>, b: seq<string>)
    requires AllOneLine(a) && AllOneLine(b)
    ensures AllOneLine(a + b)
  {
  }

  lemma IntIsSingle(k: Key, n: int)
    requires Is64Bit(n)
    ensures OneLine(Setting(k, PrintInt(n)))
  {
    AtoiPrinted(n);
    SettingIsOneLine(k, PrintInt(n));
    hide PrintInt, Setting;
  }

  lemma TextIsSingle(shown: Printable, k: Key, s: string)
    requires !shown('\n')
    ensures OneLine(Setting(k, Quote(shown, s)))
  {
    QuotedReads(shown, s);
    SettingIsOneLine(k, Quote(shown, s));
    hide Quote, Setting;
  }

  lemma HeadIsSingle(shown: Printable, c: Settings)
    requires !shown('\n') && Representable(c)
    ensures AllOneLine(Head(shown, c))
  {
    assert OneLine("# Bonghos configuration") && OneLine("[web]") && OneLine("[backups]");
    TextIsSingle(shown, BindAddress, c.bindAddress);
    IntIsSingle(Port, c.port);
    IntIsSingle(SessionHours, c.sessionHours);
    TextIsSingle(shown, BackupDirectory, c.backupDirectory);
    hide Setting, PrintInt, Quote, Three, AllOneLine;
    var bind, port, hours, dir := Setting(BindAddress, Quote(shown, c.bindAddress)), Setting(Port, PrintInt(c.port)),
      Setting(SessionHours, PrintInt(c.sessionHours)), Setting(BackupDirectory, Quote(shown, c.backupDirectory));
    ThreeAreSingle("# Bonghos configuration", "", "[web]");
    ThreeAreSingle(bind, port, hours);
    ThreeAreSingle("", "[backups]", dir);
    ConcatSingle(Three("# Bonghos configuration", "", "[web]"), Three(bind, port, hours));
    ConcatSingle(Three("# Bonghos configuration", "", "[web]") + Three(bind, port, hours), Three("", "[backups]", dir));
  }

  lemma DownloadsAreSingle(shown: Printable, c: Settings)
    requires !shown('\n') && Representable(c)
    ensures AllOneLine(Downloads(shown, c))
  {
    SettingIsOneLine(AllowInsecure, PrintBool(c.allowInsecure));
    hide Setting, PrintInt, PrintHosts, PrintBool, Three, AllOneLine, Unquoted;
    HostsPrinted(shown, c.hosts);
    SettingIsOneLine(Hosts, PrintHosts(shown, c.hosts));
    IntIsSingle(MaxUploadBytes, c.maxUploadBytes);
    IntIsSingle(MaxArchiveBytes, c.maxArchiveBytes);
    IntIsSingle(MaxArchiveFiles, c.maxArchiveFiles);
    var p := Three("", "[downloads]", Setting(AllowInsecure, PrintBool(c.allowInsecure)));
    var q := Three(Setting(Hosts, PrintHosts(shown, c.hosts)), Setting(MaxUploadBytes, PrintInt(c.maxUploadBytes)),
                   Setting(MaxArchiveBytes, PrintInt(c.maxArchiveBytes)));
    var r := Three(Setting(MaxArchiveFiles, PrintInt(c.maxArchiveFiles)), "", "[runtime]");
    ThreeAreSingle("", "[downloads]", Setting(AllowInsecure, PrintBool(c.allowInsecure)));
    ThreeAreSingle(Setting(Hosts, PrintHosts(shown, c.hosts)), Setting(MaxUploadBytes, PrintInt(c.maxUploadBytes)),
                   Setting(MaxArchiveBytes, PrintInt(c.maxArchiveBytes)));
    ThreeAreSingle(Setting(MaxArchiveFiles, PrintInt(c.maxArchiveFiles)), "", "[runtime]");
    ConcatSingle(p, q);
    ConcatSingle(p + q, r);
  }

  lemma TailIsSingle(shown: Printable, c: Settings)
    requires !shown('\n') && Representable(c)
    ensures AllOneLine(Tail(shown, c))
  {
    IntIsSingle(GracefulStop, c.gracefulStop);
    IntIsSingle(FreeSpaceReserve, c.freeSpaceReserve);
    IntIsSingle(MetricsInterval, c.metricsInterval);
    IntIsSingle(MetricsRetention, c.metricsRetention);
    TextIsSingle(shown, LogLevel, c.logLevel);
    assert AllOneLine([""]);
    hide Setting, PrintInt, Quote, Three, AllOneLine;
    var graceful := Setting(GracefulStop, PrintInt(c.gracefulStop));
    var free := Setting(FreeSpaceReserve, PrintInt(c.freeSpaceReserve));
    var p := Three(graceful, free, "");
    var q := Three("[monitoring]", Setting(MetricsInterval, PrintInt(c.metricsInterval)),
                   Setting(MetricsRetention, PrintInt(c.metricsRetention)));
    var r := Three("", "[logging]", Setting(LogLevel, Quote(shown, c.logLevel)));
    ThreeAreSingle(graceful, free, "");
    ThreeAreSingle("[monitoring]", Setting(MetricsInterval, PrintInt(c.metricsInterval)),
                   Setting(MetricsRetention, PrintInt(c.metricsRetention)));
    ThreeAreSingle("", "[logging]", Setting(LogLevel, Quote(shown, c.logLevel)));
    ConcatSingle(p, q);
    ConcatSingle(p + q, r);
    ConcatSingle(p + q + r, [""]);
  }

  /** Saving and loading gives the configuration back if and only if every trusted
      host is non-empty, printable and free of commas, quotes and backslashes; all
      other fields always come back. */
  lemma LoadSaveIff(shown: Printable, c: Settings)
    requires !shown('\n') && Representable(c)
    ensures var back := ReadLines(DEFAULT, Split(Saved(shown, c), '\n'));
            && back.(hosts := c.hosts) == c
            && (back == c <==> forall i :: 0 <= i < |c.hosts| ==> Plain(shown, c.hosts[i]))
  {
    hide Head, Downloads, Tail, Plain, ParseHosts, PrintHosts, ReadLines, Split, Saved;
    SavedReads(shown, c, DEFAULT);
    HeadReads(shown, DEFAULT, c);
    var a1 := ReadLines(DEFAULT, Head(shown, c));
    DownloadsRead(shown, a1, c);
    TailReads(shown, ReadLines(a1, Downloads(shown, c)), c);
    HostsRoundTripIff(shown, c.hosts);
    assert [] + ParseHosts(PrintHosts(shown, c.hosts)) == ParseHosts(PrintHosts(shown, c.hosts));
  }

  /** What was saved is read section by section. */
  lemma SavedReads(shown: Printable, c: Settings, a: Settings)
    requires !shown('\n') && Representable(c)
    ensures ReadLines(a, Split(Saved(shown, c), '\n')) ==
            ReadLines(ReadLines(ReadLines(a, Head(shown, c)), Downloads(shown, c)), Tail(shown, c))
  {
    var h, d, t := Head(shown, c), Downloads(shown, c), Tail(shown, c);
    HeadIsSingle(shown, c);
    DownloadsAreSingle(shown, c);
    TailIsSingle(shown, c);
    HeadIsNotEmpty(shown, c);
    hide Head, Downloads, Tail, ReadLines, Split, Join, Representable;
    var ls := h + d + t;
    ConcatSingle(h, d);
    ConcatSingle(h + d, t);
    assert forall i :: 0 <= i < |ls| ==> OneLine(ls[i]);
    SplitJoin(ls, '\n');
    ReadConcat(a, h + d, t);
    ReadConcat(a, h, d);
  }

  lemma HeadIsNotEmpty(shown: Printable, c: Settings)
    ensures |Head(shown, c)| > 0
  {
  }
}
