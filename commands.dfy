/** The string logic of the command handlers and of `run`: where a new
    database file goes and what it is called, which handler a command line
    reaches, the backup password, and how the select command reads its
    `--columns` and `--where` arguments. */
module Commands {
  import opened Wrappers
  import opened Text
  import Where

  /** The extension every database file name ends in. */
  const Extension: string := ".pydb"

  /** Python's `posixpath.join(a, b)` for two parts: an absolute second part
      replaces the first; otherwise a `/` is inserted unless the first part
      is empty or already ends in one. */
  function JoinPath(a: string, b: string): (r: string)
    ensures EndsWith(r, b)
    ensures StartsWith(b, "/") ==> r == b
    ensures !StartsWith(b, "/") ==>
      StartsWith(r, a)
      && |r| == |a| + |b| + (if a == [] || EndsWith(a, "/") then 0 else 1)
      && (a != [] ==> r[|r| - |b| - 1] == '/')
  {
    if StartsWith(b, "/") then b
    else if a == [] || EndsWith(a, "/") then a + b
    else a + "/" + b
  }

  /** Python's `posixpath.basename`: what follows the last `/`. */
  function BaseName(p: string): (r: string)
    ensures '/' !in r
    ensures EndsWith(p, r)
    ensures |r| < |p| ==> p[|p| - |r| - 1] == '/'
  {
    if p == [] || p[|p| - 1] == '/' then []
    else BaseName(p[..|p| - 1]) + [p[|p| - 1]]
  }

  predicate AllDots(s: string) {
    forall i :: 0 <= i < |s| ==> s[i] == '.'
  }

  /** The root `posixpath.splitext` gives for a name without `/`: the text
      before the last dot, except that dots leading the name do not start an
      extension, so a name such as `.pydb` is its own root. */
  function SplitExtRoot(b: string): (r: string)
    ensures |r| <= |b| && b[..|r|] == r
  {
    if '.' !in b then b
    else
      var d := LastIndexOf(b, '.');
      if AllDots(b[..d]) then b else b[..d]
  }

  /** What `handle_create_database` computes before it calls the storage
      engine: the file path it reports, the database name, and the storage
      path it passes on. */
  datatype NewDatabase = NewDatabase(filePath: string, name: string, storagePath: string)

  function PlanCreateDatabase(path: string, file: string): (r: NewDatabase)
    ensures EndsWith(r.filePath, Extension)
    ensures EndsWith(file, Extension) ==> r.filePath == JoinPath(path, file)
    ensures !EndsWith(file, Extension) ==> r.filePath == JoinPath(path, file) + Extension
    ensures r.storagePath == path
  {
    var joined := JoinPath(path, file);
    var filePath :=
      if EndsWith(file, Extension) then (EndsWithTrans(joined, file, Extension); joined)
      else (EndsWithAppend(joined, Extension); joined + Extension);
    NewDatabase(filePath, SplitExtRoot(BaseName(filePath)), path)
  }

  lemma EndsWithAppend(s: string, t: string)
    ensures EndsWith(s + t, t)
  {
    assert (s + t)[|s|..] == t;
  }

  lemma EndsWithTrans(s: string, t: string, u: string)
    requires EndsWith(s, t) && EndsWith(t, u)
    ensures EndsWith(s, u)
  {
    assert s[|s| - |u|..] == s[|s| - |t|..][|t| - |u|..];
  }

  lemma EndsWithInit(p: string, s: string)
    requires EndsWith(p, s) && s != []
    ensures p[|p| - 1] == s[|s| - 1]
    ensures EndsWith(p[..|p| - 1], s[..|s| - 1])
  {
    var q := p[..|p| - 1];
    assert p[|p| - 1] == p[|p| - |s|..][|s| - 1];
    assert q[|q| - (|s| - 1)..] == p[|p| - |s|..][..|s| - 1];
  }

  lemma EndsWithSnoc(a: string, t: string, c: char)
    requires EndsWith(a, t)
    ensures EndsWith(a + [c], t + [c])
  {
    assert (a + [c])[|a| - |t|..] == a[|a| - |t|..] + [c];
  }

  lemma BaseNameSnoc(p: string)
    requires p != [] && p[|p| - 1] != '/'
    ensures BaseName(p) == BaseName(p[..|p| - 1]) + [p[|p| - 1]]
  {
  }

  /** The base name keeps any ending of the path that holds no `/`. */
  lemma {:induction false} BaseNameKeepsEnding(p: string, s: string)
    requires EndsWith(p, s) && '/' !in s
    ensures EndsWith(BaseName(p), s)
  {
    if s != [] {
      var q := p[..|p| - 1];
      var s' := s[..|s| - 1];
      EndsWithInit(p, s);
      assert '/' !in s' by { assert forall i :: 0 <= i < |s'| ==> s'[i] == s[i]; }
      BaseNameKeepsEnding(q, s');
      BaseNameSnoc(p);
      EndsWithSnoc(BaseName(q), s', p[|p| - 1]);
      assert s' + [p[|p| - 1]] == s;
    }
  }

  /** What follows the last `/` is the base name. */
  lemma {:induction false} BaseNameAfterSlash(p: string, s: string)
    requires '/' !in s
    ensures BaseName(p + "/" + s) == s
  {
    if s != [] {
      var s' := s[..|s| - 1];
      assert (p + "/" + s)[..|p + "/" + s| - 1] == p + "/" + s';
      assert '/' !in s' by { assert forall i :: 0 <= i < |s'| ==> s'[i] == s[i]; }
      BaseNameAfterSlash(p, s');
      assert s == s' + [s[|s| - 1]];
    }
  }

  /** What precedes the extension of a name ending in `.pydb`. */
  function Stem(b: string): string
    requires EndsWith(b, Extension)
  {
    b[..|b| - |Extension|]
  }

  /** A name ending in `.pydb` has that dot as its last: the root drops the
      extension unless only dots precede it. */
  lemma RootOfExtension(b: string)
    requires EndsWith(b, Extension)
    ensures AllDots(Stem(b)) ==> SplitExtRoot(b) == b
    ensures !AllDots(Stem(b)) ==> SplitExtRoot(b) == Stem(b) && Stem(b) + Extension == b
  {
    var stem := Stem(b);
    assert b == stem + ['.'] + "pydb" by {
      assert b[|b| - |Extension|..] == Extension;
      assert b == stem + Extension;
    }
    LastIndexOfBefore(stem, '.', "pydb");
    assert b[..|stem|] == stem;
  }

  /** The name taken from a path ending in `.pydb`. */
  lemma NameOfPath(filePath: string)
    requires EndsWith(filePath, Extension)
    ensures EndsWith(BaseName(filePath), Extension)
    ensures AllDots(Stem(BaseName(filePath))) ==> SplitExtRoot(BaseName(filePath)) == BaseName(filePath)
    ensures !AllDots(Stem(BaseName(filePath))) ==> SplitExtRoot(BaseName(filePath)) + Extension == BaseName(filePath)
  {
    assert '/' !in Extension;
    BaseNameKeepsEnding(filePath, Extension);
    RootOfExtension(BaseName(filePath));
  }

  /** The database name is the file's base name without its `.pydb`, unless
      only dots precede that extension, in which case the whole base name is
      the name. */
  lemma DatabaseName(path: string, file: string)
    ensures EndsWith(BaseName(PlanCreateDatabase(path, file).filePath), Extension)
    ensures var r := PlanCreateDatabase(path, file);
            AllDots(Stem(BaseName(r.filePath))) ==> r.name == BaseName(r.filePath)
    ensures var r := PlanCreateDatabase(path, file);
            !AllDots(Stem(BaseName(r.filePath))) ==> r.name + Extension == BaseName(r.filePath)
  {
    NameOfPath(PlanCreateDatabase(path, file).filePath);
  }

  /** Whatever the arguments, the name never contains `/`. */
  lemma DatabaseNameHasNoSlash(path: string, file: string)
    ensures '/' !in PlanCreateDatabase(path, file).name
  {
    var r := PlanCreateDatabase(path, file);
    var b := BaseName(r.filePath);
    assert r.name == b[..|r.name|];
  }

  /** An empty file name under `.` becomes the hidden file `./.pydb`, whose
      database name is `.pydb` itself. */
  lemma EmptyFileName()
    ensures PlanCreateDatabase(".", "") == NewDatabase("./.pydb", ".pydb", ".")
  {
    EmptyFilePath();
    HiddenBaseName();
    HiddenRoot();
  }

  lemma EmptyFilePath()
    ensures PlanCreateDatabase(".", "").filePath == "./.pydb"
  {
    assert !EndsWith("", Extension);
    JoinCurrentDirectory();
    assert "./" + Extension == "./.pydb";
  }

  lemma JoinCurrentDirectory()
    ensures JoinPath(".", "") == "./"
  {
    assert !StartsWith("", "/");
    assert !EndsWith(".", "/");
  }

  lemma HiddenBaseName()
    ensures BaseName("./.pydb") == ".pydb"
  {
    BaseNameAfterSlash(".", ".pydb");
    assert "." + "/" + ".pydb" == "./.pydb";
  }

  lemma HiddenRoot()
    ensures SplitExtRoot(".pydb") == ".pydb"
  {
    LastIndexOfBefore([], '.', "pydb");
    assert [] + ['.'] + "pydb" == ".pydb";
  }

  /** The handlers `run` can reach. */
  datatype Handler =
    | CreateDatabase | CreateTable | Insert | Select | Update | Delete | Info | ChangePassword | Backup

  /** What `run` does with the parsed command line. */
  datatype Route = ShowHelp | Dispatch(handler: Handler) | InvalidCommand(command: string)

  /** `command_handlers['create']` */
  const CreateHandlers: map<string, Handler> := map["database" := CreateDatabase, "table" := CreateTable]

  /** The rest of `command_handlers`. */
  const CommandHandlers: map<string, Handler> := map[
    "insert" := Insert, "select" := Select, "update" := Update, "delete" := Delete,
    "info" := Info, "password" := ChangePassword, "backup" := Backup
  ]

  /** Routing by `args.command` and, for `create`, `args.create_command`: no
      command prints the help; a missing key is reported as an invalid
      command, naming the main command. */
  function RouteCommand(command: Option<string>, createCommand: Option<string>): (r: Route)
    ensures r == ShowHelp <==> command.None? || command.value == ""
    ensures r.InvalidCommand? ==> r.command == command.value
  {
    if command.None? || command.value == "" then ShowHelp
    else if command.value == "create" then
      if createCommand.Some? && createCommand.value in CreateHandlers
      then Dispatch(CreateHandlers[createCommand.value])
      else InvalidCommand(command.value)
    else if command.value in CommandHandlers then Dispatch(CommandHandlers[command.value])
    else InvalidCommand(command.value)
  }

  /** The command (and sub-command) that selects a handler. */
  function CommandLine(h: Handler): (Option<string>, Option<string>) {
    match h
    case CreateDatabase => (Some("create"), Some("database"))
    case CreateTable => (Some("create"), Some("table"))
    case Insert => (Some("insert"), None)
    case Select => (Some("select"), None)
    case Update => (Some("update"), None)
    case Delete => (Some("delete"), None)
    case Info => (Some("info"), None)
    case ChangePassword => (Some("password"), None)
    case Backup => (Some("backup"), None)
  }

  /** Every handler is reached by its own command line. */
  lemma EveryHandlerReachable(h: Handler)
    ensures RouteCommand(CommandLine(h).0, CommandLine(h).1) == Dispatch(h)
  {
  }

  /** A routed command line is that handler's own: the main command always,
      and the sub-command for `create`. */
  lemma RouteDeterminesCommand(command: Option<string>, createCommand: Option<string>)
    requires RouteCommand(command, createCommand).Dispatch?
    ensures var h := RouteCommand(command, createCommand).handler;
            command == CommandLine(h).0 && (command == Some("create") ==> createCommand == CommandLine(h).1)
  {
  }

  /** `args.backup_password or args.password`: an absent or empty backup
      password falls back to the database's own. */
  function BackupPassword(backupPassword: Option<string>, password: string): (r: string)
    ensures r == "" <==> password == "" && (backupPassword.None? || backupPassword.value == "")
    ensures r != password ==> backupPassword.Some? && r == backupPassword.value && r != ""
    ensures backupPassword.Some? && backupPassword.value != "" ==> r == backupPassword.value
  {
    if backupPassword.Some? && backupPassword.value != "" then backupPassword.value else password
  }

  /** How `handle_select` reads `--columns`: absent or empty means none;
      otherwise the comma-separated names, each stripped. */
  function SelectColumns(arg: Option<string>): (r: Option<seq<string>>)
    ensures r.None? <==> arg.None? || arg.value == ""
    ensures r.Some? ==> |r.value| == |Split(arg.value, ',')|
    ensures r.Some? ==> forall i :: 0 <= i < |r.value| ==> r.value[i] == Strip(Split(arg.value, ',')[i])
  {
    if arg.None? || arg.value == "" then None
    else
      var pieces := Split(arg.value, ',');
      Some(seq(|pieces|, i requires 0 <= i < |pieces| => Strip(pieces[i])))
  }

  /** One name per comma-separated piece: a list of `n` commas names `n + 1`
      columns, and a name never holds a comma or surrounding whitespace. */
  lemma SelectColumnsCount(arg: string)
    requires arg != ""
    ensures SelectColumns(Some(arg)).Some?
    ensures |SelectColumns(Some(arg)).value| == Count(arg, ',') + 1
    ensures forall i :: 0 <= i < |SelectColumns(Some(arg)).value| ==>
              var name := SelectColumns(Some(arg)).value[i];
              name == [] || (!IsSpace(name[0]) && !IsSpace(name[|name| - 1]))
  {
    SplitLength(arg, ',');
  }

  /** How `handle_select` reads `--where`: absent or empty selects every row
      with no condition; otherwise the clause is parsed. */
  function SelectCondition(arg: Option<string>): (r: Option<Result<Where.Condition, Where.WhereError>>)
    ensures r.None? <==> arg.None? || arg.value == ""
    ensures r.Some? ==> r.value == Where.CreateCondition(arg.value)
  {
    if arg.None? || arg.value == "" then None else Some(Where.CreateCondition(arg.value))
  }
}
