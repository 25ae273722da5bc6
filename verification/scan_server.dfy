/** The request handler and startup configuration of `scan_server.py`.
    The server's state is the scanner configuration file with its `.bak`
    copy, the listing of the scan directory with its sub-directories, and
    the responses written so far; the scanner process and the random source
    are inputs. */
module ScanServer {
  import opened Outcomes
  import opened Text
  import opened Substitution
  import opened Environment
  import opened PrefixAllocator
  import opened Http

  /** The placeholder the configuration template holds where the scan's file name prefix goes. */
  const Placeholder := "PREFIX"
  const ConfigPath := "./scan_config.SF2"

  /** `scan_config.SF2` and `scan_config.SF2.bak`. */
  datatype ConfigFiles = ConfigFiles(config: string, backup: string)

  /** What the scan directory path names on disk. */
  datatype DirKind = Absent | RegularFile | Directory

  /** `listing` is what `os.listdir` returns for the scan directory, which
      includes its sub-directories; `subdirs` names those. */
  datatype ServerState = ServerState(files: ConfigFiles, listing: seq<string>, subdirs: set<string>, responses: seq<Response>)

  /** `open(os.path.join(SCAN_DIR, name), "rb")` succeeds: a regular file of the scan directory. */
  predicate IsFile(st: ServerState, name: string)
  {
    name in st.listing && name !in st.subdirs
  }

  /** An exception that leaves the handler. It ends that request's worker
      thread of the threading server, with whatever was sent so far; the
      server itself keeps running. */
  datatype Raised =
    | SystemExit(fatal: Fatal)   // `fatal_error` inside the handler
    | DrawsExhausted             // the random stream ran out before a fresh prefix was drawn
    | SpawnFailed                // `subprocess.run` could not start `epsonscan2`
    | IndexError                 // `files[0]` on an empty list
    | OpenFailed                 // `open` of a name that is not a regular file of the scan directory

  datatype Step = Step(state: ServerState, raised: Option<Raised>)

  /** How the `epsonscan2` process ended, with the scan directory as it left
      it. The scanner only adds regular files, so the sub-directories of the
      scan directory are the same after a scan as before it. */
  datatype ScanRun =
    | Exited(code: int, output: Option<string>, listingAfter: seq<string>)
    | SpawnError

  datatype Route = ScanRoute | FilesRoute | NotFoundRoute

  // ---------------------------------------------------------------- routing

  /** `self.path.lower().rstrip("/")` */
  function CleanPath(path: string): string
  {
    TrimTrailingSlashes(Lower(path))
  }

  /** The dispatch of `do_GET`. */
  function RouteOf(path: string): Route
  {
    var cleaned := CleanPath(path);
    if cleaned == "/scan" then ScanRoute
    else if "/files" <= cleaned then FilesRoute
    else NotFoundRoute
  }

  /** A path reaches the scan handler exactly when, ignoring case, it is
      `/scan` followed by any number of slashes. */
  lemma {:induction false} ScanRouteIff(path: string)
    ensures RouteOf(path) == ScanRoute <==>
      (|path| >= 5 && Lower(path[..5]) == "/scan" && forall i :: 5 <= i < |path| ==> path[i] == '/')
  {
    var l := Lower(path);
    var c := TrimTrailingSlashes(l);
    LowerKeepsSlashes(path);
    if |path| >= 5 {
      assert Lower(path[..5]) == l[..5];
    }
    if |path| >= 5 && Lower(path[..5]) == "/scan" && forall i :: 5 <= i < |path| ==> path[i] == '/' {
      assert l[4] == 'n';
      assert |c| >= 5;
      assert |c| <= 5;
      assert c == l[..5];
    }
  }

  /** A path reaches the file handler exactly when, ignoring case, it
      starts with `/files`: `/filesxyz` does too. */
  lemma {:induction false} FilesRouteIff(path: string)
    ensures RouteOf(path) == FilesRoute <==> "/files" <= Lower(path)
  {
    var l := Lower(path);
    var c := TrimTrailingSlashes(l);
    if "/files" <= c {
      assert c[..6] == l[..6];
    }
    if "/files" <= l {
      assert l[5] == 's';
      assert |c| >= 6;
      assert c[..6] == l[..6];
    }
  }

  /** A trailing slash never changes the route. */
  lemma {:induction false} RouteIgnoresTrailingSlash(path: string)
    ensures RouteOf(path + "/") == RouteOf(path)
  {
    var l := Lower(path);
    assert Lower(path + "/") == l + "/";
    assert (l + "/")[..|l|] == l;
  }

  /** Case never changes the route. */
  lemma {:induction false} RouteIgnoresCase(path: string)
    ensures RouteOf(Lower(path)) == RouteOf(path)
  {
    LowerIdempotent(path);
  }

  lemma {:induction false} ScanRouteExamples()
    ensures RouteOf("/SCAN") == ScanRoute
    ensures RouteOf("/scan/") == ScanRoute
    ensures RouteOf("/scan//") == ScanRoute
  {
    ScanRouteIff("/SCAN");
    ScanRouteIff("/scan/");
    ScanRouteIff("/scan//");
  }

  lemma {:induction false} OtherRouteExamples()
    ensures RouteOf("/filesxyz") == FilesRoute
    ensures RouteOf("/unknown") == NotFoundRoute
  {
    FilesRouteIff("/filesxyz");
    ScanRouteIff("/unknown");
    FilesRouteIff("/unknown");
    assert Lower("/unknown")[1] == 'u';
  }

  // ---------------------------------------------------------- configuration

  /** `update_config_file`: read the configuration, apply the dict in
      order, and write the same text to the file and to its `.bak`. */
  function UpdateConfigFile(files: ConfigFiles, m: ReplaceMap): (r: ConfigFiles)
    ensures r.config == r.backup
    ensures r.config == ApplyReplacements(files.config, m)
    ensures (forall k :: 0 <= k < |m| ==> |m[k].0| > 0 && !Occurs(files.config, m[k].0)) ==>
      r == ConfigFiles(files.config, files.config)
  {
    var text := ApplyReplacements(files.config, m);
    assert (forall k :: 0 <= k < |m| ==> |m[k].0| > 0 && !Occurs(files.config, m[k].0)) ==> text == files.config by {
      if forall k :: 0 <= k < |m| ==> |m[k].0| > 0 && !Occurs(files.config, m[k].0) {
        ApplyWithoutKeys(files.config, m);
      }
    }
    ConfigFiles(text, text)
  }

  datatype Startup = Startup(files: ConfigFiles, scanDir: DirKind)

  /** `update_config` at start-up: substitute the DPI (default 300) and
      the scan directory into the template, creating the directory when
      it is missing and stopping when its path is a regular file. */
  function UpdateConfig(env: Env, scanDirPath: string, scanDir: DirKind, files: ConfigFiles): (r: Result<Startup, Fatal>)
    ensures r.Failure? <==> scanDir == RegularFile
    ensures r.Failure? ==> r.error == Fatal(1, NotADirectory(scanDirPath))
    ensures r.Success? ==> r.value.scanDir == Directory
    ensures r.Success? ==>
      r.value.files.config == r.value.files.backup ==
        Replace(Replace(files.config, DpiVar, Dpi(env)), "RESULT_FOLDER", scanDirPath)
  {
    match GetEnvVar(env, DpiVar, Some(DefaultDpi), false)
    case Failure(f) => Failure(f)
    case Success(dpi) =>
      if scanDir == RegularFile then Failure(Fatal(ExitFailure, NotADirectory(scanDirPath)))
      else
        var m := [(DpiVar, dpi), ("RESULT_FOLDER", scanDirPath)];
        ApplyReplacementsInOrder(files.config, [(DpiVar, dpi)], "RESULT_FOLDER", scanDirPath);
        ApplySingle(files.config, DpiVar, dpi);
        assert m == [(DpiVar, dpi)] + [("RESULT_FOLDER", scanDirPath)];
        Success(Startup(UpdateConfigFile(files, m), Directory))
  }

  // ------------------------------------------------------------------- scan

  /** `"epsonscan2 --scan {} ./scan_config.SF2".format(scanner_ip)` */
  function ScanCommandLine(ip: string): string
  {
    "epsonscan2 --scan " + ip + " " + ConfigPath
  }

  /** `command.split()`, the argument list handed to `subprocess.run`. */
  function ScanCommand(ip: string): seq<string>
  {
    Words(ScanCommandLine(ip))
  }

  /** The argument list is the tool, `--scan`, the whitespace-separated
      words of the scanner address, and the configuration path. */
  lemma {:induction false} ScanCommandWords(ip: string)
    ensures ScanCommand(ip) == ["epsonscan2", "--scan"] + Words(ip) + [ConfigPath]
  {
    assert ScanCommandLine(ip) == "epsonscan2" + [' '] + ("--scan" + [' '] + (ip + [' '] + ConfigPath));
    assert IsWord("epsonscan2") && IsWord("--scan") && IsWord(ConfigPath);
    WordsAround("epsonscan2", "--scan", ip, ConfigPath);
  }

  /** An address without whitespace is a single argument. */
  lemma {:induction false} ScanCommandForPlainAddress(ip: string)
    requires IsWord(ip)
    ensures ScanCommand(ip) == ["epsonscan2", "--scan", ip, ConfigPath]
  {
    ScanCommandWords(ip);
    WordsOfWord(ip);
  }

  /** The JSON body of a failed scan. */
  function ScanErrorBody(code: int, output: Option<string>, cmd: seq<string>): JsonObject
  {
    map[
      "message" := JStr("Error while scanning"),
      "returncode" := JInt(code),
      "output" := (match output case None => JNull case Some(o) => JStr(o)),
      "command" := JStrList(cmd)
    ]
  }

  /** The configuration after `{"PREFIX": p}` is applied before the scan
      and `{p: "PREFIX"}` after it. */
  function ArmAndRestore(files: ConfigFiles, p: string): ConfigFiles
  {
    var armed := UpdateConfigFile(files, [(Placeholder, p)]);
    UpdateConfigFile(armed, [(p, Placeholder)])
  }

  /** `do_scan` once the scanner address `ip` is known and the prefix `p`
      allocated: run the scanner, answer, and restore the configuration in
      the `finally` clause whatever the outcome. */
  function ScanWithPrefix(st: ServerState, ip: string, p: string, run: ScanRun): (r: Step)
    ensures r.state.files == ArmAndRestore(st.files, p)
    ensures |r.state.responses| <= |st.responses| + 1
    ensures st.responses <= r.state.responses
    ensures run.SpawnError? ==> r.raised == Some(SpawnFailed) && r.state.responses == st.responses
    ensures run.Exited? && run.code == 0 && Fresh(run.listingAfter, p) ==>
      r.raised == Some(IndexError) && r.state.responses == st.responses + [Response(200, [], NoBody)]
  {
    var restored := ArmAndRestore(st.files, p);
    match run
    case SpawnError =>
      Step(st.(files := restored), Some(SpawnFailed))
    case Exited(code, output, after) =>
      if code != 0 then
        var resp := Response(500, [], JsonBody(ScanErrorBody(code, output, ScanCommand(ip))));
        Step(st.(files := restored, listing := after, responses := st.responses + [resp]), None)
      else
        var files := Matching(after, p);
        if |files| == 0 then
          Step(st.(files := restored, listing := after, responses := st.responses + [Response(200, [], NoBody)]), Some(IndexError))
        else
          var resp := Response(200, [], JsonBody(map["filename" := JStr(files[0])]));
          Step(st.(files := restored, listing := after, responses := st.responses + [resp]), None)
  }

  /** `do_scan`: look up `SCANNER_IP`, allocate a prefix, then scan. */
  function DoScan(st: ServerState, env: Env, draws: seq<LetterIndex>, run: ScanRun): (r: Step)
    ensures |r.state.responses| <= |st.responses| + 1
    ensures st.responses <= r.state.responses
    ensures ScannerIpVar !in env ==> r == Step(st, Some(SystemExit(Fatal(1, NoDefault(ScannerIpVar)))))
    ensures ScannerIpVar in env && AllocatePrefix(st.listing, draws).None? ==> r == Step(st, Some(DrawsExhausted))
    ensures ScannerIpVar in env && AllocatePrefix(st.listing, draws).Some? ==>
      var p := AllocatePrefix(st.listing, draws).value;
      && |p| == PrefixLength && AllLower(p) && Fresh(st.listing, p)
      && r == ScanWithPrefix(st, env[ScannerIpVar], p, run)
  {
    match GetEnvVar(env, ScannerIpVar, None, false)
    case Failure(f) => Step(st, Some(SystemExit(f)))
    case Success(ip) =>
      match AllocatePrefix(st.listing, draws)
      case None => Step(st, Some(DrawsExhausted))
      case Some(p) => ScanWithPrefix(st, ip, p, run)
  }

  /** A non-zero exit yields one 500 response whose JSON body has exactly
      the keys message, returncode, output and command, the exit code as
      returncode, and no filename. */
  lemma {:induction false} ScanFailureResponse(st: ServerState, ip: string, p: string, run: ScanRun)
    requires run.Exited? && run.code != 0
    ensures var r := ScanWithPrefix(st, ip, p, run);
      && r.raised == None
      && |r.state.responses| == |st.responses| + 1
      && var resp := r.state.responses[|st.responses|];
      && resp.status == 500
      && resp.body.JsonBody?
      && resp.body.obj.Keys == {"message", "returncode", "output", "command"}
      && "filename" !in resp.body.obj
      && resp.body.obj["returncode"] == JInt(run.code)
      && resp.body.obj["command"] == JStrList(["epsonscan2", "--scan"] + Words(ip) + [ConfigPath])
  {
    ScanCommandWords(ip);
  }

  /** A zero exit yields one 200 response naming the earliest entry of the
      scan directory that starts with the prefix. */
  lemma {:induction false} ScanSuccessResponse(st: ServerState, ip: string, p: string, run: ScanRun)
    requires run.Exited? && run.code == 0 && !Fresh(run.listingAfter, p)
    ensures var r := ScanWithPrefix(st, ip, p, run);
      var after := run.listingAfter;
      && r.raised == None
      && |r.state.responses| == |st.responses| + 1
      && var resp := r.state.responses[|st.responses|];
      && resp.status == 200
      && resp.body.JsonBody?
      && resp.body.obj.Keys == {"filename"}
      && resp.body.obj["filename"].JStr?
      && var f := resp.body.obj["filename"].s;
      && p <= f
      && exists i :: 0 <= i < |after| && after[i] == f && forall j :: 0 <= j < i ==> !(p <= after[j])
  {
    var files := Matching(run.listingAfter, p);
    var e :| e in run.listingAfter && p <= e;
    assert e in files;
    assert files[0] in files;
    var resp := Response(200, [], JsonBody(map["filename" := JStr(files[0])]));
    assert ScanWithPrefix(st, ip, p, run).state.responses == st.responses + [resp];
  }

  /** The substitution `PREFIX -> p` and its undoing `p -> PREFIX` leave
      the configuration and its `.bak` copy holding the template, on success
      and failure alike, when the lower-case prefix does not already occur
      in it and no placeholder follows a lower-case letter. */
  lemma {:induction false} ScanRestoresTemplate(st: ServerState, ip: string, p: string, run: ScanRun)
    requires |p| > 0 && AllLower(p)
    requires !Occurs(st.files.config, p) && LowerFreeBefore(st.files.config, Placeholder)
    ensures ScanWithPrefix(st, ip, p, run).state.files == ConfigFiles(st.files.config, st.files.config)
  {
    var t := st.files.config;
    ApplySingle(t, Placeholder, p);
    ApplySingle(Replace(t, Placeholder, p), p, Placeholder);
    RestoreRoundTrip(t, Placeholder, p);
  }

  /** Without its side conditions the round trip fails: a lower-case
      letter before the placeholder lets the restore match too early ... */
  lemma {:induction false} RestoreNeedsLowerFreeBefore()
    ensures Replace(Replace("aPREFIX", Placeholder, "aaaaaaaa"), "aaaaaaaa", Placeholder) == "PREFIXa"
  {
    assert Replace("PREFIX", Placeholder, "aaaaaaaa") == "aaaaaaaa";
    assert Replace("aPREFIX", Placeholder, "aaaaaaaa") == "aaaaaaaaa";
    assert Replace("a", "aaaaaaaa", Placeholder) == "a";
  }

  /** ... and a prefix already present in the template is turned into a
      placeholder it never was. */
  lemma {:induction false} RestoreNeedsFreshPrefix()
    ensures Replace(Replace("abcdefgh", Placeholder, "abcdefgh"), "abcdefgh", Placeholder) == Placeholder
  {
    assert !Occurs("abcdefgh", Placeholder) by {
      forall i | 0 <= i < 8
        ensures !OccursAt("abcdefgh", Placeholder, i)
      {
        var t: string := "abcdefgh";
        assert IsLower(t[i]) && t[i..][0] == t[i] by {
          assert AllLower(t);
        }
      }
    }
    ReplaceWithoutKey("abcdefgh", Placeholder, "abcdefgh");
    assert Replace("abcdefgh", "abcdefgh", Placeholder) == Placeholder + Replace([], "abcdefgh", Placeholder);
  }

  // ------------------------------------------------------------------ files

  const InvalidFilename: JsonObject := map["message" := JStr("Invalid Filename")]

  function DownloadHeaders(name: string): seq<(string, string)>
  {
    [("Content-type", "application/pdf"), ("Content-Disposition", "attachment; filename=\"" + name + "\"")]
  }

  /** The 200 part of `get_file`: headers, then the file, whose `open`
      fails when the name is not a regular file of the scan directory. */
  function Serve(st: ServerState, name: string): (r: Step)
    ensures r.state == st.(responses := r.state.responses)
    ensures |r.state.responses| == |st.responses| + 1 && st.responses <= r.state.responses
    ensures var sent := r.state.responses[|st.responses|];
      sent.status == 200 && sent.headers == DownloadHeaders(name) && (sent.body.FileBody? <==> IsFile(st, name))
    ensures r.raised == None <==> IsFile(st, name)
  {
    if IsFile(st, name) then
      Step(st.(responses := st.responses + [Response(200, DownloadHeaders(name), FileBody(name))]), None)
    else
      Step(st.(responses := st.responses + [Response(200, DownloadHeaders(name), NoBody)]), Some(OpenFailed))
  }

  /** `get_file` as written: the name is the raw path after its last '/';
      an invalid name gets the 404 and its JSON, and then, since that branch
      does not return, the 200 download response as well. */
  function GetFileAsWritten(st: ServerState, path: string): (r: Step)
    ensures r.state == st.(responses := r.state.responses)
    ensures var name := LastSegment(path);
      var served := Response(200, DownloadHeaders(name), if IsFile(st, name) then FileBody(name) else NoBody);
      r.state.responses ==
        st.responses + (if IsAlnum(name) then [] else [Response(404, [], JsonBody(InvalidFilename))]) + [served]
    ensures r.raised == None <==> IsFile(st, LastSegment(path))
  {
    var name := LastSegment(path);
    if IsAlnum(name) then Serve(st, name)
    else Serve(st.(responses := st.responses + [Response(404, [], JsonBody(InvalidFilename))]), name)
  }

  /** `get_file` with the `return` its invalid-name branch lacks: a name
      that is not alphanumeric gets only the 404 with its JSON body and the
      directory is never opened; every file sent has an alphanumeric name. */
  function GetFile(st: ServerState, path: string): (r: Step)
    ensures r.state == st.(responses := r.state.responses)
    ensures !IsAlnum(LastSegment(path)) ==>
      r == Step(st.(responses := st.responses + [Response(404, [], JsonBody(InvalidFilename))]), None)
    ensures |r.state.responses| == |st.responses| + 1 && st.responses <= r.state.responses
    ensures var sent := r.state.responses[|st.responses|];
      && (sent.status == 404 <==> !IsAlnum(LastSegment(path)))
      && (sent.body.FileBody? <==> IsAlnum(LastSegment(path)) && IsFile(st, LastSegment(path)))
  {
    var name := LastSegment(path);
    if !IsAlnum(name) then
      Step(st.(responses := st.responses + [Response(404, [], JsonBody(InvalidFilename))]), None)
    else
      Serve(st, name)
  }

  /** The name is what follows the last slash, in its original case. */
  lemma {:induction false} LastSegmentAfterSlash(dir: string, name: string)
    requires '/' !in name
    ensures LastSegment(dir + "/" + name) == name
    decreases |name|
  {
    var s := dir + "/" + name;
    if |name| == 0 {
      assert s[|s| - 1] == '/';
    } else {
      var init := name[..|name| - 1];
      assert s[|s| - 1] == name[|name| - 1];
      assert s[..|s| - 1] == dir + "/" + init;
      assert '/' !in init by {
        assert forall k :: 0 <= k < |init| ==> init[k] == name[k];
      }
      LastSegmentAfterSlash(dir, init);
      assert init + [name[|name| - 1]] == name;
    }
  }

  /** `/files/x.pdf` as written: the invalid-name 404 is followed by a 200
      carrying the file, where the intended handler stops after the 404. */
  lemma {:induction false} GetFileServesInvalidName(st: ServerState)
    requires IsFile(st, "x.pdf")
    ensures GetFileAsWritten(st, "/files/x.pdf").state.responses ==
      st.responses + [Response(404, [], JsonBody(InvalidFilename)), Response(200, DownloadHeaders("x.pdf"), FileBody("x.pdf"))]
    ensures GetFile(st, "/files/x.pdf").state.responses ==
      st.responses + [Response(404, [], JsonBody(InvalidFilename))]
  {
    LastSegmentAfterSlash("/files", "x.pdf");
    assert "/files" + "/" + "x.pdf" == "/files/x.pdf";
    assert "x.pdf"[1] == '.';
  }

  // ---------------------------------------------------------------- do_GET

  /** `do_GET`: route, then run the scan or file handler, or answer 404
      with no body. */
  function HandleGet(st: ServerState, path: string, env: Env, draws: seq<LetterIndex>, run: ScanRun): (r: Step)
    ensures RouteOf(path) == NotFoundRoute ==>
      r == Step(st.(responses := st.responses + [Response(404, [], NoBody)]), None)
    ensures RouteOf(path) == ScanRoute ==> r == DoScan(st, env, draws, run)
    ensures RouteOf(path) == FilesRoute ==> r == GetFile(st, path)
    ensures RouteOf(path) != ScanRoute ==> r.state == st.(responses := r.state.responses)
    ensures st.responses <= r.state.responses
  {
    match RouteOf(path)
    case ScanRoute => DoScan(st, env, draws, run)
    case FilesRoute => GetFile(st, path)
    case NotFoundRoute => Step(st.(responses := st.responses + [Response(404, [], NoBody)]), None)
  }
}
