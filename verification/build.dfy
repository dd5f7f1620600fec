/**
 * The `build` command: prepares dist/, renders src/index.html with the
 * site configuration into dist/index.html, then copies the layout, static
 * and webfont trees into dist/. The YAML decoder, the template engine and
 * every os call that may fail for reasons outside the tree are inputs,
 * collected in an `Env`.
 */
module Build {
  import opened Paths
  import opened FileSystem
  import opened CopyTree
  import opened SiteConfig

  const Dist: Path := ["dist"]
  const DistStatic: Path := ["dist", "static"]
  const DistWebfonts: Path := ["dist", "webfonts"]
  const DistLayout: Path := ["dist", "layout"]
  const IndexTarget: Path := ["dist", "index.html"]
  const ConfigPath: Path := ["config", "config.yml"]
  const IndexSource: Path := ["src", "index.html"]
  const LayoutSource: Path := ["src", "layout"]
  const StaticSource: Path := ["src", "static"]
  const WebfontsSource: Path := ["src", "static", "webfonts"]

  /** The parsed page template: src/index.html, plus the partials of src/layout when ParseGlob succeeded. */
  datatype TemplateSet = TemplateSet(index: Bytes, withLayouts: bool)

  /** tmpl.Execute: the page, or an error after `partial` bytes were already written. */
  datatype Rendering = Rendered(page: Bytes) | RenderFailed(partial: Bytes)

  datatype CopyStep = LayoutCopy | StaticCopy | WebfontsCopy

  /** What `build` prints, in order; the exact wording is not modelled. */
  datatype BuildEvent =
    | Building
    | ConfigOpenError
    | ConfigParseError
    | TemplateParseError
    | IndexCreateError(err: Failure)
    | RenderError
    | CopyError(step: CopyStep, err: Failure)
    | BuildComplete
  {
    /** The events after which Run returns. */
    predicate Aborts() {
      ConfigOpenError? || ConfigParseError? || TemplateParseError? || IndexCreateError? || RenderError?
    }
  }

  /**
   * Everything the build depends on besides the tree: whether each os call
   * is refused, the YAML decoder, whether src/index.html can be read and
   * whether it parses, whether the partials glob parses, the renderer, and
   * for each copy the walk order and the failures met on the way.
   */
  datatype Env = Env(
    staticDenied: bool,
    webfontsDenied: bool,
    openDenied: bool,
    decode: Bytes -> Option<Document>,
    indexReadDenied: bool,
    parse: Bytes -> bool,
    globOk: bool,
    render: (TemplateSet, Document) -> Rendering,
    createDenied: bool,
    layoutOrder: seq<Path>,
    staticOrder: seq<Path>,
    webfontsOrder: seq<Path>,
    layoutFaults: Faults,
    staticFaults: Faults,
    webfontsFaults: Faults)

  datatype BuildResult = BuildResult(fs: Entries, log: seq<BuildEvent>)

  /** The two os.MkdirAll calls at the start; their errors are dropped. */
  function Prepare(fs: Entries, env: Env): (r: Entries)
    ensures !env.staticDenied && !FileOnPath(fs, DistStatic) ==> IsDir(r, Dist) && IsDir(r, DistStatic)
    ensures !env.webfontsDenied && !FileOnPath(fs, DistWebfonts) ==> IsDir(r, DistWebfonts)
    ensures forall q | q in fs :: q in r && r[q] == fs[q]
    ensures forall q | q in r && q !in fs :: Within(Dist, q) && r[q] == Dir
    ensures ConfigPath in r <==> ConfigPath in fs
    ensures IndexSource in r <==> IndexSource in fs
  {
    var s := Mkdirs(fs, DistStatic, env.staticDenied);
    MkdirsAddsNoFile(fs, DistStatic, env.staticDenied, DistWebfonts);
    var w := Mkdirs(s.fs, DistWebfonts, env.webfontsDenied);
    assert Dist <= DistStatic && Dist != [];
    assert !env.staticDenied && !FileOnPath(fs, DistStatic) ==> IsDir(s.fs, Dist) && IsDir(s.fs, DistStatic);
    assert !env.webfontsDenied && !FileOnPath(fs, DistWebfonts) ==> !FileOnPath(s.fs, DistWebfonts) && IsDir(w.fs, DistWebfonts);
    forall q | q in w.fs && q !in fs ensures Within(Dist, q) {
      if q in s.fs {
        UnderDist(q, DistStatic);
      } else {
        UnderDist(q, DistWebfonts);
      }
    }
    assert !Within(Dist, ConfigPath) && !Within(Dist, IndexSource) by {
      assert ConfigPath[0] != Dist[0] && IndexSource[0] != Dist[0];
    }
    w.fs
  }

  lemma UnderDist(q: Path, p: Path)
    requires q != [] && q <= p && p != [] && p[0] == "dist"
    ensures Within(Dist, q)
  {
    assert q[0] == p[0];
  }

  /** os.Open then Decode of config/config.yml; a directory opens but cannot be read. */
  function ConfigDocument(fs: Entries, env: Env): (doc: Option<Document>)
    requires !env.openDenied && ConfigPath in fs
    ensures doc.Some? <==> IsFile(fs, ConfigPath) && env.decode(fs[ConfigPath].data).Some?
    ensures doc.Some? ==> doc == env.decode(fs[ConfigPath].data)
  {
    if IsFile(fs, ConfigPath) then env.decode(fs[ConfigPath].data) else None
  }

  /** template.ParseFiles("src/index.html"): the file's bytes, when it can be read and parses. */
  function IndexTemplate(fs: Entries, env: Env): (index: Option<Bytes>)
    ensures index.Some? <==> !env.indexReadDenied && IsFile(fs, IndexSource) && env.parse(fs[IndexSource].data)
    ensures index.Some? ==> fs[IndexSource] == File(index.value)
  {
    match ReadBytes(fs, IndexSource, env.indexReadDenied)
    case None => None
    case Some(data) => if env.parse(data) then Some(data) else None
  }

  /** What tmpl.Execute is given: the parsed template set and the decoded configuration. */
  datatype Job = Job(tmpl: TemplateSet, doc: Document)

  /**
   * The job Run goes on to execute once config/config.yml opened and decoded
   * and src/index.html parsed; None when Run returned before that.
   */
  function Parsed(fs: Entries, env: Env): (j: Option<Job>)
    ensures j.Some? <==>
              && !env.openDenied && ConfigPath in fs && IsFile(fs, ConfigPath) && env.decode(fs[ConfigPath].data).Some?
              && !env.indexReadDenied && IsFile(fs, IndexSource) && env.parse(fs[IndexSource].data)
    ensures j.Some? ==> j.value == Job(TemplateSet(fs[IndexSource].data, env.globOk), env.decode(fs[ConfigPath].data).value)
  {
    if env.openDenied || ConfigPath !in fs then None
    else match (ConfigDocument(fs, env), IndexTemplate(fs, env))
      case (Some(doc), Some(index)) => Some(Job(TemplateSet(index, env.globOk), doc))
      case _ => None
  }

  function SourceOf(step: CopyStep): Path {
    match step
    case LayoutCopy => LayoutSource
    case StaticCopy => StaticSource
    case WebfontsCopy => WebfontsSource
  }

  function TargetOf(step: CopyStep): Path {
    match step
    case LayoutCopy => DistLayout
    case StaticCopy => DistStatic
    case WebfontsCopy => DistWebfonts
  }

  function OrderOf(env: Env, step: CopyStep): seq<Path> {
    match step
    case LayoutCopy => env.layoutOrder
    case StaticCopy => env.staticOrder
    case WebfontsCopy => env.webfontsOrder
  }

  function FaultsOf(env: Env, step: CopyStep): Faults {
    match step
    case LayoutCopy => env.layoutFaults
    case StaticCopy => env.staticFaults
    case WebfontsCopy => env.webfontsFaults
  }

  /** Every source tree lies under src/, apart from every dist/ directory. */
  lemma SourcesApart(src: Path)
    requires src == LayoutSource || src == StaticSource || src == WebfontsSource
    ensures forall p | Within(src, p) :: !Related(p, DistLayout) && !Related(p, DistStatic) && !Related(p, DistWebfonts)
  {
    assert src[0] == "src" && "src" != "dist";
  }

  /** What one step writes, the later steps do not touch. */
  lemma TargetsApart(step: CopyStep, t: Path)
    requires Within(TargetOf(step), t)
    ensures step != WebfontsCopy ==> !Related(t, DistWebfonts)
    ensures step == LayoutCopy ==> !Related(t, DistStatic)
  {
    assert TargetOf(step)[1] in {"layout", "static", "webfonts"};
    assert "layout" != "static" && "layout" != "webfonts" && "static" != "webfonts";
  }

  /** One copyDir call of Run: the walk of the step's source tree into its dist/ directory. */
  function Copy(fs: Entries, env: Env, step: CopyStep): (r: Outcome)
    ensures r.err.None? ==> forall i | 0 <= i < |OrderOf(env, step)| :: Within(SourceOf(step), OrderOf(env, step)[i])
    ensures r.err.Some? ==> r.err.value.IoFailure?
  {
    Walk(fs, SourceOf(step), TargetOf(step), OrderOf(env, step), FaultsOf(env, step))
  }

  function StepRank(s: CopyStep): nat {
    match s
    case LayoutCopy => 0
    case StaticCopy => 1
    case WebfontsCopy => 2
  }

  /** A copy step changes nothing away from its own dist/ directory and removes no directory. */
  lemma CopyConfined(fs: Entries, env: Env, step: CopyStep)
    ensures UnchangedAwayFrom(fs, Copy(fs, env, step).fs, TargetOf(step))
    ensures forall q | IsDir(fs, q) :: IsDir(Copy(fs, env, step).fs, q)
  {
    WalkConfined(fs, SourceOf(step), TargetOf(step), OrderOf(env, step), FaultsOf(env, step));
    WalkKeepsDirs(fs, SourceOf(step), TargetOf(step), OrderOf(env, step), FaultsOf(env, step));
  }

  /** The three copy steps, each run whether or not the one before it failed. */
  function CopyAll(fs: Entries, env: Env): (r: BuildResult)
    ensures |r.log| <= 3
    ensures forall i | 0 <= i < |r.log| :: r.log[i].CopyError?
    ensures forall i, j | 0 <= i < j < |r.log| :: StepRank(r.log[i].step) < StepRank(r.log[j].step)
    ensures forall q | !Related(q, DistLayout) && !Related(q, DistStatic) && !Related(q, DistWebfonts) ::
              (q in fs <==> q in r.fs) && (q in fs ==> r.fs[q] == fs[q])
    ensures forall q | IsDir(fs, q) :: IsDir(r.fs, q)
  {
    var a := Copy(fs, env, LayoutCopy);
    var b := Copy(a.fs, env, StaticCopy);
    var c := Copy(b.fs, env, WebfontsCopy);
    CopyConfined(fs, env, LayoutCopy);
    CopyConfined(a.fs, env, StaticCopy);
    CopyConfined(b.fs, env, WebfontsCopy);
    ChainConfined(fs, a.fs, b.fs, c.fs);
    ReportedInStepOrder(a.err, b.err, c.err);
    BuildResult(c.fs, Reported(LayoutCopy, a.err) + Reported(StaticCopy, b.err) + Reported(WebfontsCopy, c.err))
  }

  function Reported(step: CopyStep, err: Option<Failure>): seq<BuildEvent> {
    if err.Some? then [CopyError(step, err.value)] else []
  }

  /** Three steps confined to the three dist/ targets leave everything else alone, directories included. */
  lemma ChainConfined(fs: Entries, a: Entries, b: Entries, c: Entries)
    requires UnchangedAwayFrom(fs, a, DistLayout) && UnchangedAwayFrom(a, b, DistStatic) && UnchangedAwayFrom(b, c, DistWebfonts)
    requires (forall q | IsDir(fs, q) :: IsDir(a, q)) && (forall q | IsDir(a, q) :: IsDir(b, q)) && (forall q | IsDir(b, q) :: IsDir(c, q))
    ensures forall q | !Related(q, DistLayout) && !Related(q, DistStatic) && !Related(q, DistWebfonts) ::
              (q in fs <==> q in c) && (q in fs ==> c[q] == fs[q])
    ensures forall q | IsDir(fs, q) :: IsDir(c, q)
  {
  }

  lemma ReportedInStepOrder(a: Option<Failure>, b: Option<Failure>, c: Option<Failure>)
    ensures var log := Reported(LayoutCopy, a) + Reported(StaticCopy, b) + Reported(WebfontsCopy, c);
            && |log| <= 3
            && (forall i | 0 <= i < |log| :: log[i].CopyError?)
            && (forall i, j | 0 <= i < j < |log| :: StepRank(log[i].step) < StepRank(log[j].step))
  {
  }

  /** The Run function of buildCmd. */
  function RunBuild(fs: Entries, env: Env): (r: BuildResult)
    ensures |r.log| >= 2 && r.log[0] == Building
    ensures r.log[|r.log| - 1] == BuildComplete || (|r.log| == 2 && r.log[1].Aborts())
    ensures forall i | 1 <= i < |r.log| - 1 :: r.log[i].CopyError?
    ensures r.log[1] == ConfigOpenError <==> env.openDenied || ConfigPath !in fs
    ensures r.log[1] == ConfigParseError <==>
              !env.openDenied && ConfigPath in fs && (!IsFile(fs, ConfigPath) || env.decode(fs[ConfigPath].data).None?)
    ensures r.log[1] == TemplateParseError <==>
              !env.openDenied && ConfigPath in fs && r.log[1] != ConfigParseError &&
              (env.indexReadDenied || !IsFile(fs, IndexSource) || !env.parse(fs[IndexSource].data))
    ensures r.log[1].IndexCreateError? <==>
              Parsed(fs, env).Some? && Created(Prepare(fs, env), IndexTarget, env.createDenied).err.Some?
    ensures r.log[1] == RenderError <==>
              && Parsed(fs, env).Some? && Created(Prepare(fs, env), IndexTarget, env.createDenied).err.None?
              && env.render(Parsed(fs, env).value.tmpl, Parsed(fs, env).value.doc).RenderFailed?
    ensures r.log[|r.log| - 1] == BuildComplete <==>
              && Parsed(fs, env).Some? && Created(Prepare(fs, env), IndexTarget, env.createDenied).err.None?
              && env.render(Parsed(fs, env).value.tmpl, Parsed(fs, env).value.doc).Rendered?
    ensures r.log[|r.log| - 1] == BuildComplete ==>
              IndexTarget in r.fs && r.fs[IndexTarget] == File(env.render(Parsed(fs, env).value.tmpl, Parsed(fs, env).value.doc).page)
    ensures r.log[|r.log| - 1] == BuildComplete ==>
              var copied := CopyAll(Prepare(fs, env)[IndexTarget := File(env.render(Parsed(fs, env).value.tmpl, Parsed(fs, env).value.doc).page)], env);
              r == BuildResult(copied.fs, [Building] + copied.log + [BuildComplete])
    ensures r.log[1].Aborts() && !r.log[1].RenderError? ==> r.fs == Prepare(fs, env)
    ensures r.log[1].RenderError? ==> IsFile(r.fs, IndexTarget) && r.fs == Prepare(fs, env)[IndexTarget := r.fs[IndexTarget]]
    ensures !env.staticDenied && !FileOnPath(fs, DistStatic) ==> IsDir(r.fs, DistStatic)
    ensures !env.webfontsDenied && !FileOnPath(fs, DistWebfonts) ==> IsDir(r.fs, DistWebfonts)
  {
    var p := Prepare(fs, env);
    if env.openDenied || ConfigPath !in p then BuildResult(p, [Building, ConfigOpenError])
    else
      OpenedLog(fs, env);
      OpenedOutcome(fs, env);
      OpenedTree(fs, env);
      OpenedPage(fs, env);
      OpenedComplete(fs, env);
      Announce(Compile(p, env))
  }

  /** "Building", then what the rest of Run reports. */
  function Announce(w: BuildResult): BuildResult {
    BuildResult(w.fs, [Building] + w.log)
  }

  /** The shape of Run's log once config/config.yml opened, and its parse errors. */
  lemma OpenedLog(fs: Entries, env: Env)
    requires !env.openDenied && ConfigPath in fs
    ensures var r := Announce(Compile(Prepare(fs, env), env));
            && |r.log| >= 2 && r.log[0] == Building
            && (r.log[|r.log| - 1] == BuildComplete || (|r.log| == 2 && r.log[1].Aborts()))
            && (forall i | 1 <= i < |r.log| - 1 :: r.log[i].CopyError?)
            && r.log[1] != ConfigOpenError
            && (r.log[1] == ConfigParseError <==> !IsFile(fs, ConfigPath) || env.decode(fs[ConfigPath].data).None?)
            && (r.log[1] == TemplateParseError <==>
                  r.log[1] != ConfigParseError && (env.indexReadDenied || !IsFile(fs, IndexSource) || !env.parse(fs[IndexSource].data)))
  {
    var w := Compile(Prepare(fs, env), env);
    assert ([Building] + w.log)[1] == w.log[0];
  }

  /** Which of create error, render error and completion ends Run, once both parses succeeded. */
  lemma OpenedOutcome(fs: Entries, env: Env)
    requires !env.openDenied && ConfigPath in fs
    ensures var r := Announce(Compile(Prepare(fs, env), env));
            && (r.log[1].IndexCreateError? <==>
                  Parsed(fs, env).Some? && Created(Prepare(fs, env), IndexTarget, env.createDenied).err.Some?)
            && (r.log[1] == RenderError <==>
                  && Parsed(fs, env).Some? && Created(Prepare(fs, env), IndexTarget, env.createDenied).err.None?
                  && env.render(Parsed(fs, env).value.tmpl, Parsed(fs, env).value.doc).RenderFailed?)
            && (r.log[|r.log| - 1] == BuildComplete <==>
                  && Parsed(fs, env).Some? && Created(Prepare(fs, env), IndexTarget, env.createDenied).err.None?
                  && env.render(Parsed(fs, env).value.tmpl, Parsed(fs, env).value.doc).Rendered?)
  {
    var p := Prepare(fs, env);
    assert Parsed(p, env) == Parsed(fs, env);
    var w := Compile(p, env);
    assert ([Building] + w.log)[1] == w.log[0];
  }

  /** The tree Run leaves when it returns early, and the dist/ directories it made. */
  lemma OpenedTree(fs: Entries, env: Env)
    requires !env.openDenied && ConfigPath in fs
    ensures var r := Announce(Compile(Prepare(fs, env), env));
            && (r.log[1].Aborts() && !r.log[1].RenderError? ==> r.fs == Prepare(fs, env))
            && (r.log[1].RenderError? ==> IsFile(r.fs, IndexTarget) && r.fs == Prepare(fs, env)[IndexTarget := r.fs[IndexTarget]])
            && (!env.staticDenied && !FileOnPath(fs, DistStatic) ==> IsDir(r.fs, DistStatic))
            && (!env.webfontsDenied && !FileOnPath(fs, DistWebfonts) ==> IsDir(r.fs, DistWebfonts))
  {
    var p := Prepare(fs, env);
    assert Parsed(p, env) == Parsed(fs, env);
    var w := Compile(p, env);
    assert ([Building] + w.log)[1] == w.log[0];
  }

  /** A completed Run leaves the rendered page in dist/index.html. */
  lemma OpenedPage(fs: Entries, env: Env)
    requires !env.openDenied && ConfigPath in fs
    ensures var r := Announce(Compile(Prepare(fs, env), env));
            r.log[|r.log| - 1] == BuildComplete ==>
              IndexTarget in r.fs && r.fs[IndexTarget] == File(env.render(Parsed(fs, env).value.tmpl, Parsed(fs, env).value.doc).page)
  {
    var p := Prepare(fs, env);
    assert Parsed(p, env) == Parsed(fs, env);
  }

  /** A completed Run: the tree and the log the three copies left, between "Building" and "BuildComplete". */
  lemma OpenedComplete(fs: Entries, env: Env)
    requires !env.openDenied && ConfigPath in fs
    ensures var r := Announce(Compile(Prepare(fs, env), env));
            r.log[|r.log| - 1] == BuildComplete ==>
              var copied := CopyAll(Prepare(fs, env)[IndexTarget := File(env.render(Parsed(fs, env).value.tmpl, Parsed(fs, env).value.doc).page)], env);
              r == BuildResult(copied.fs, [Building] + copied.log + [BuildComplete])
  {
    var p := Prepare(fs, env);
    assert Parsed(p, env) == Parsed(fs, env);
    var w := Compile(p, env);
    AnnounceLast(w);
    if w.log[|w.log| - 1] == BuildComplete {
      CompileCompletes(p, env);
      var job := Parsed(p, env).value;
      AnnounceCompleted(w, CopyAll(p[IndexTarget := File(env.render(job.tmpl, job.doc).page)], env));
    }
  }

  lemma AnnounceLast(w: BuildResult)
    requires |w.log| >= 1
    ensures var r := Announce(w); r.log[|r.log| - 1] == w.log[|w.log| - 1]
  {
  }

  lemma AnnounceCompleted(w: BuildResult, copied: BuildResult)
    requires w == BuildResult(copied.fs, copied.log + [BuildComplete])
    ensures Announce(w) == BuildResult(copied.fs, [Building] + copied.log + [BuildComplete])
  {
    assert [Building] + (copied.log + [BuildComplete]) == [Building] + copied.log + [BuildComplete];
  }

  /** A completed Compile is Publish's completion: the three copies on the tree holding the page. */
  lemma CompileCompletes(fs: Entries, env: Env)
    requires !env.openDenied && ConfigPath in fs
    ensures var w := Compile(fs, env);
            w.log[|w.log| - 1] == BuildComplete ==>
              var copied := CopyAll(fs[IndexTarget := File(env.render(Parsed(fs, env).value.tmpl, Parsed(fs, env).value.doc).page)], env);
              w == BuildResult(copied.fs, copied.log + [BuildComplete])
  {
  }

  /** Run after config/config.yml was opened: decode it, parse the templates, then publish. */
  function Compile(fs: Entries, env: Env): (r: BuildResult)
    requires !env.openDenied && ConfigPath in fs
    ensures |r.log| >= 1
    ensures r.log[|r.log| - 1] == BuildComplete || (|r.log| == 1 && r.log[0].Aborts() && r.log[0] != ConfigOpenError)
    ensures forall i | 0 <= i < |r.log| - 1 :: r.log[i].CopyError?
    ensures r.log[0] == ConfigParseError <==> !IsFile(fs, ConfigPath) || env.decode(fs[ConfigPath].data).None?
    ensures r.log[0] == TemplateParseError <==>
              r.log[0] != ConfigParseError && (env.indexReadDenied || !IsFile(fs, IndexSource) || !env.parse(fs[IndexSource].data))
    ensures r.log[0].Aborts() && !r.log[0].RenderError? ==> r.fs == fs
    ensures Parsed(fs, env).Some? ==> r == Publish(fs, env, Parsed(fs, env).value.tmpl, Parsed(fs, env).value.doc)
    ensures forall q | IsDir(fs, q) :: IsDir(r.fs, q)
  {
    match Parsed(fs, env)
    case None =>
      if ConfigDocument(fs, env).None? then BuildResult(fs, [ConfigParseError]) else BuildResult(fs, [TemplateParseError])
    case Some(job) => Publish(fs, env, job.tmpl, job.doc)
  }

  /** From os.Create("dist/index.html") to the end of Run, once the config and the template are parsed. */
  function Publish(fs: Entries, env: Env, tmpl: TemplateSet, doc: Document): (r: BuildResult)
    ensures |r.log| >= 1
    ensures r.log[|r.log| - 1] == BuildComplete || (|r.log| == 1 && (r.log[0].IndexCreateError? || r.log[0].RenderError?))
    ensures forall i | 0 <= i < |r.log| - 1 :: r.log[i].CopyError?
    ensures r.log[0].IndexCreateError? <==> Created(fs, IndexTarget, env.createDenied).err.Some?
    ensures r.log[0].IndexCreateError? ==> r == BuildResult(fs, [IndexCreateError(IoFailure(Create, IndexTarget))])
    ensures r.log[0] == RenderError <==>
              Created(fs, IndexTarget, env.createDenied).err.None? && env.render(tmpl, doc).RenderFailed?
    ensures r.log[0] == RenderError ==> r.fs == fs[IndexTarget := File(env.render(tmpl, doc).partial)]
    ensures r.log[|r.log| - 1] == BuildComplete <==>
              Created(fs, IndexTarget, env.createDenied).err.None? && env.render(tmpl, doc).Rendered?
    ensures r.log[|r.log| - 1] == BuildComplete ==>
              && r == BuildResult(CopyAll(fs[IndexTarget := File(env.render(tmpl, doc).page)], env).fs,
                                  CopyAll(fs[IndexTarget := File(env.render(tmpl, doc).page)], env).log + [BuildComplete])
              && IndexTarget in r.fs && r.fs[IndexTarget] == File(env.render(tmpl, doc).page)
    ensures forall q | IsDir(fs, q) :: IsDir(r.fs, q)
  {
    var c := Created(fs, IndexTarget, env.createDenied);
    if c.err.Some? then BuildResult(fs, [IndexCreateError(c.err.value)])
    else
      match env.render(tmpl, doc)
      case RenderFailed(partial) => BuildResult(c.fs[IndexTarget := File(partial)], [RenderError])
      case Rendered(page) =>
        var written := c.fs[IndexTarget := File(page)];
        assert written == fs[IndexTarget := File(page)];
        var copied := CopyAll(written, env);
        assert !Related(IndexTarget, DistLayout) && !Related(IndexTarget, DistStatic) && !Related(IndexTarget, DistWebfonts) by {
          assert IndexTarget[1] == "index.html";
          assert "index.html" != "layout" && "index.html" != "static" && "index.html" != "webfonts";
        }
        BuildResult(copied.fs, copied.log + [BuildComplete])
  }

  /** buildCmd's Run on the disk. */
  method RunOnDisk(disk: Disk, env: Env) returns (log: seq<BuildEvent>)
    modifies disk
    ensures BuildResult(disk.entries, log) == RunBuild(old(disk.entries), env)
  {
    var ignored := disk.MkdirAll(DistStatic, env.staticDenied);
    ignored := disk.MkdirAll(DistWebfonts, env.webfontsDenied);
    if env.openDenied || ConfigPath !in disk.entries {
      return [Building, ConfigOpenError];
    }
    var rest := CompileOnDisk(disk, env);
    log := [Building] + rest;
  }

  method CompileOnDisk(disk: Disk, env: Env) returns (log: seq<BuildEvent>)
    requires !env.openDenied && ConfigPath in disk.entries
    modifies disk
    ensures BuildResult(disk.entries, log) == Compile(old(disk.entries), env)
  {
    var doc := ConfigDocument(disk.entries, env);
    if doc.None? {
      return [ConfigParseError];
    }
    var index := IndexTemplate(disk.entries, env);
    if index.None? {
      return [TemplateParseError];
    }
    log := PublishOnDisk(disk, env, TemplateSet(index.value, env.globOk), doc.value);
  }

  method PublishOnDisk(disk: Disk, env: Env, tmpl: TemplateSet, doc: Document) returns (log: seq<BuildEvent>)
    modifies disk
    ensures BuildResult(disk.entries, log) == Publish(old(disk.entries), env, tmpl, doc)
  {
    var err := disk.Create(IndexTarget, env.createDenied);
    if err.Some? {
      return [IndexCreateError(err.value)];
    }
    match env.render(tmpl, doc) {
      case RenderFailed(partial) =>
        disk.Fill(IndexTarget, partial);
        return [RenderError];
      case Rendered(page) =>
        disk.Fill(IndexTarget, page);
    }
    var copies := CopyAllOnDisk(disk, env);
    log := copies + [BuildComplete];
  }

  method CopyAllOnDisk(disk: Disk, env: Env) returns (log: seq<BuildEvent>)
    modifies disk
    ensures BuildResult(disk.entries, log) == CopyAll(old(disk.entries), env)
  {
    var err := CopyDir(disk, LayoutSource, DistLayout, env.layoutOrder, env.layoutFaults);
    log := Reported(LayoutCopy, err);
    err := CopyDir(disk, StaticSource, DistStatic, env.staticOrder, env.staticFaults);
    log := log + Reported(StaticCopy, err);
    err := CopyDir(disk, WebfontsSource, DistWebfonts, env.webfontsOrder, env.webfontsFaults);
    log := log + Reported(WebfontsCopy, err);
  }

  /** The tree a copy step starts from: the steps before it have run. */
  function Before(fs: Entries, env: Env, step: CopyStep): Entries {
    match step
    case LayoutCopy => fs
    case StaticCopy => Copy(fs, env, LayoutCopy).fs
    case WebfontsCopy => Copy(Copy(fs, env, LayoutCopy).fs, env, StaticCopy).fs
  }

  /** The copies before a step leave its source tree as it was. */
  lemma BeforeKeepsSource(fs: Entries, env: Env, step: CopyStep)
    ensures forall p | Within(SourceOf(step), p) ::
              (p in Before(fs, env, step) <==> p in fs) && (p in fs ==> Before(fs, env, step)[p] == fs[p])
  {
    SourcesApart(SourceOf(step));
    CopyConfined(fs, env, LayoutCopy);
    CopyConfined(Copy(fs, env, LayoutCopy).fs, env, StaticCopy);
  }

  /** A step's error, if any, is reported in CopyAll's log. */
  lemma CopyAllReports(fs: Entries, env: Env, step: CopyStep)
    ensures var mid := Copy(Before(fs, env, step), env, step);
            mid.err.Some? ==> CopyError(step, mid.err.value) in CopyAll(fs, env).log
  {
    var a := Copy(fs, env, LayoutCopy);
    var b := Copy(a.fs, env, StaticCopy);
    var c := Copy(b.fs, env, WebfontsCopy);
    var log := CopyAll(fs, env).log;
    assert log == Reported(LayoutCopy, a.err) + Reported(StaticCopy, b.err) + Reported(WebfontsCopy, c.err);
    match step
    case LayoutCopy =>
      if a.err.Some? {
        assert log[0] == CopyError(LayoutCopy, a.err.value);
      }
    case StaticCopy =>
      if b.err.Some? {
        assert log[|Reported(LayoutCopy, a.err)|] == CopyError(StaticCopy, b.err.value);
      }
    case WebfontsCopy =>
      if c.err.Some? {
        assert log[|log| - 1] == CopyError(WebfontsCopy, c.err.value);
      }
  }

  /** Every error CopyAll reports is the error its own step returned. */
  lemma CopyAllReportsOwn(fs: Entries, env: Env)
    ensures forall e | e in CopyAll(fs, env).log :: Copy(Before(fs, env, e.step), env, e.step).err == Some(e.err)
  {
    var a := Copy(fs, env, LayoutCopy);
    var b := Copy(a.fs, env, StaticCopy);
    var c := Copy(b.fs, env, WebfontsCopy);
    var log := CopyAll(fs, env).log;
    assert log == Reported(LayoutCopy, a.err) + Reported(StaticCopy, b.err) + Reported(WebfontsCopy, c.err);
    forall e | e in log ensures Copy(Before(fs, env, e.step), env, e.step).err == Some(e.err) {
      if e in Reported(LayoutCopy, a.err) {
        assert e == CopyError(LayoutCopy, a.err.value);
      } else if e in Reported(StaticCopy, b.err) {
        assert e == CopyError(StaticCopy, b.err.value);
      } else {
        assert e in Reported(WebfontsCopy, c.err);
      }
    }
  }

  /** The steps after a step leave what it wrote in its dist/ directory alone. */
  lemma CopyAllKeepsTarget(fs: Entries, env: Env, step: CopyStep, t: Path)
    requires Within(TargetOf(step), t)
    ensures var mid := Copy(Before(fs, env, step), env, step).fs;
            (t in CopyAll(fs, env).fs <==> t in mid) && (t in mid ==> CopyAll(fs, env).fs[t] == mid[t])
  {
    var a := Copy(fs, env, LayoutCopy);
    var b := Copy(a.fs, env, StaticCopy);
    TargetsApart(step, t);
    CopyConfined(b.fs, env, WebfontsCopy);
    if step == LayoutCopy {
      CopyConfined(a.fs, env, StaticCopy);
    }
  }

  /**
   * A copy step that reported no error leaves its whole source tree, but
   * for ".gitkeep" entries, mirrored in its dist/ directory at the end of
   * the build, whatever the other two steps did.
   */
  lemma CopyStepLands(fs: Entries, env: Env, step: CopyStep)
    requires IsWalkOrder(fs, SourceOf(step), OrderOf(env, step))
    requires forall e | e in CopyAll(fs, env).log :: e.step != step
    ensures forall p | p in fs && Within(SourceOf(step), p) && Name(p) != Sentinel ::
              Mirrors(fs[p], CopyAll(fs, env).fs, Target(SourceOf(step), TargetOf(step), p))
  {
    var src := SourceOf(step);
    var dst := TargetOf(step);
    var before := Before(fs, env, step);
    var mid := Copy(before, env, step);
    BeforeKeepsSource(fs, env, step);
    CopyAllReports(fs, env, step);
    assert mid.err.None?;
    assert IsWalkOrder(before, src, OrderOf(env, step));
    SourcesApart(src);
    assert !Related(src, dst);
    CopyDirMirrorsSource(before, src, dst, OrderOf(env, step), FaultsOf(env, step));
    forall p | p in fs && Within(src, p) && Name(p) != Sentinel
      ensures Mirrors(fs[p], CopyAll(fs, env).fs, Target(src, dst, p))
    {
      assert Mirrors(before[p], mid.fs, Target(src, dst, p));
      CopyAllKeepsTarget(fs, env, step, Target(src, dst, p));
    }
  }

  /**
   * The same at the level of Run: after a completed build, a copy step that
   * reported no error leaves its source tree, but for ".gitkeep" entries,
   * mirrored in its dist/ directory.
   */
  lemma RunBuildCopyLands(fs: Entries, env: Env, step: CopyStep)
    requires RunBuild(fs, env).log[|RunBuild(fs, env).log| - 1] == BuildComplete
    requires IsWalkOrder(fs, SourceOf(step), OrderOf(env, step))
    requires forall e | e in RunBuild(fs, env).log && e.CopyError? :: e.step != step
    ensures forall p | p in fs && Within(SourceOf(step), p) && Name(p) != Sentinel ::
              Mirrors(fs[p], RunBuild(fs, env).fs, Target(SourceOf(step), TargetOf(step), p))
  {
    var src := SourceOf(step);
    var job := Parsed(fs, env).value;
    var w := Prepare(fs, env)[IndexTarget := File(env.render(job.tmpl, job.doc).page)];
    var copied := CopyAll(w, env);
    assert RunBuild(fs, env).log == [Building] + copied.log + [BuildComplete];
    SourcesApart(src);
    forall p | Within(src, p) ensures (p in w <==> p in fs) && (p in fs ==> w[p] == fs[p]) {
      assert !Within(Dist, p) && p != IndexTarget by {
        assert p[0] == "src" && Dist[0] == "dist" && IndexTarget[0] == "dist";
      }
    }
    assert IsWalkOrder(w, src, OrderOf(env, step));
    forall e | e in copied.log ensures e.step != step {
      assert e in RunBuild(fs, env).log;
    }
    CopyStepLands(w, env, step);
  }
}
