/** The script's main flow (main, get_logs): resolve the job, keep the raw log
    if asked to, strip escape sequences, and choose how and where the external
    renderer draws the microprint.

    Environment variables become fields of Config; the two responses of the
    hosting service (the run's job list and the job's log text) become
    parameters; the renderer and the file write are described by the values
    Run returns instead of being performed. */
module Microprint {
  import opened Wrappers
  import opened AnsiEscape
  import opened Jobs
  import opened Repository

  /** The two renderers; INPUT_MICROPRINT_RENDER_METHOD picks one. */
  datatype RenderMethod = Svg | Raster

  /** Only the exact string "svg" selects vector output; everything else,
      including "SVG" and "", falls through to raster output. */
  function RenderMethodOf(setting: string): (m: RenderMethod)
    ensures m == Svg <==> setting == "svg"
  {
    if setting == "svg" then Svg else Raster
  }

  function Extension(m: RenderMethod): string
  {
    match m
    case Svg => ".svg"
    case Raster => ".png"
  }

  /** A file name inside a directory, the script's Path(directory) / name.
      Path normalisation is not modelled. */
  datatype FilePath = FilePath(directory: string, name: string)

  /** Where the microprint is written: the configured file name with ".svg"
      appended when the setting is "svg", and ".png" otherwise. */
  function ImagePath(directory: string, filename: string, setting: string): (p: FilePath)
    ensures p.directory == directory
    ensures |p.name| == |filename| + 4 && p.name[..|filename|] == filename
    ensures p.name[|filename|..] == ".svg" <==> setting == "svg"
    ensures p.name[|filename|..] == ".png" <==> setting != "svg"
  {
    var name := filename + Extension(RenderMethodOf(setting));
    assert name[|filename|..] == Extension(RenderMethodOf(setting));
    FilePath(directory, name)
  }

  /** Different file names never give the same image path, and the path tells
      whether vector output was selected. */
  lemma ImagePathInjective(directory: string, filename1: string, setting1: string, filename2: string, setting2: string)
    requires ImagePath(directory, filename1, setting1) == ImagePath(directory, filename2, setting2)
    ensures filename1 == filename2
    ensures setting1 == "svg" <==> setting2 == "svg"
  {
    var p := ImagePath(directory, filename1, setting1);
    assert |filename1| == |filename2|;
    assert filename1 == p.name[..|filename1|] == filename2;
  }

  /** "/out" and "run1": "svg" gives /out/run1.svg, any other setting /out/run1.png. */
  lemma ImagePathExample(other: string)
    requires other != "svg"
    ensures ImagePath("/out", "run1", "svg") == FilePath("/out", "run1.svg")
    ensures ImagePath("/out", "run1", other) == FilePath("/out", "run1.png")
  {
    assert "run1" + ".svg" == "run1.svg";
    assert "run1" + ".png" == "run1.png";
  }

  /** A file the script writes, with its whole contents (mode "w" truncates). */
  datatype FileWrite = FileWrite(path: FilePath, contents: string)

  /** The raw-log write of get_logs: only when the setting is exactly "true", and
      then the text exactly as fetched, to <directory>/<filename>.txt. */
  function SavedLog(setting: string, directory: string, filename: string, rawLog: string): (w: Option<FileWrite>)
    ensures w.Some? <==> setting == "true"
    ensures w.Some? ==> w.value.contents == rawLog
    ensures w.Some? ==> w.value.path.directory == directory &&
                        |w.value.path.name| == |filename| + 4 &&
                        w.value.path.name[..|filename|] == filename &&
                        w.value.path.name[|filename|..] == ".txt"
  {
    if setting == "true" then
      var name := filename + ".txt";
      assert name[..|filename|] == filename && name[|filename|..] == ".txt";
      Some(FileWrite(FilePath(directory, name), rawLog))
    else None
  }

  /** The values the script reads from its environment. */
  datatype Config = Config(
    repository: string,          // INPUT_REPOSITORY, "owner/repo"
    token: string,               // INPUT_GITHUB_TOKEN
    jobName: string,             // INPUT_JOB_NAME
    runId: string,               // GITHUB_RUN_ID
    logPath: string,             // INPUT_LOG_PATH
    logFilename: string,         // INPUT_LOG_FILENAME
    saveLog: string,             // INPUT_SAVE_LOG
    microprintPath: string,      // INPUT_MICROPRINT_PATH
    microprintFilename: string,  // INPUT_MICROPRINT_FILENAME
    scale: int,                  // INPUT_MICROPRINT_SCALE, already converted
    renderMethod: string)        // INPUT_MICROPRINT_RENDER_METHOD

  /** The points where the script aborts with an uncaught exception. */
  datatype Failure =
    | MalformedRepository   // no "/" in the repository: index 1 of the split is missing
    | JobNotFound           // no job has the name: the lookup's None is subscripted

  /** The call into the external renderer. */
  datatype RenderRequest = RenderRequest(renderer: RenderMethod, text: string, output: FilePath, scale: int)

  /** What a successful run does: the client it builds, the job it picks, the file
      it may write and the rendering it asks for. */
  datatype Outcome = Outcome(api: Api, jobId: int, savedLog: Option<FileWrite>, render: RenderRequest)

  /** main, given jobsOfRun (the service's job list for the run) and rawLog (the
      service's log text for the chosen job). */
  function Run(cfg: Config, jobsOfRun: seq<Job>, rawLog: string): (r: Result<Outcome, Failure>)
    ensures r == Failure(MalformedRepository) <==> '/' !in cfg.repository
    ensures r == Failure(JobNotFound) <==> '/' in cfg.repository && !HasJobNamed(jobsOfRun, cfg.jobName)
    ensures r.Success? ==>
              (exists k :: IsFirstMatch(jobsOfRun, cfg.jobName, k) && jobsOfRun[k].id == r.value.jobId) &&
              r.value.api.token == cfg.token &&
              Some(r.value.api) == SetupApi(cfg.repository, cfg.token)
    ensures r.Success? ==>
              (r.value.savedLog.Some? <==> cfg.saveLog == "true") &&
              (r.value.savedLog.Some? ==> r.value.savedLog.value.contents == rawLog) &&
              r.value.savedLog == SavedLog(cfg.saveLog, cfg.logPath, cfg.logFilename, rawLog)
    ensures r.Success? ==>
              r.value.render.text == Strip(rawLog) &&
              (r.value.render.renderer == Svg <==> cfg.renderMethod == "svg") &&
              r.value.render.output == ImagePath(cfg.microprintPath, cfg.microprintFilename, cfg.renderMethod) &&
              r.value.render.scale == cfg.scale
  {
    match SetupApi(cfg.repository, cfg.token)
    case None => Failure(MalformedRepository)
    case Some(api) =>
      if !HasJobNamed(jobsOfRun, cfg.jobName) then Failure(JobNotFound)
      else
        var jobId := JobId(jobsOfRun, cfg.jobName);
        var saved := SavedLog(cfg.saveLog, cfg.logPath, cfg.logFilename, rawLog);
        var renderer := RenderMethodOf(cfg.renderMethod);
        var output := ImagePath(cfg.microprintPath, cfg.microprintFilename, cfg.renderMethod);
        Success(Outcome(api, jobId, saved, RenderRequest(renderer, Strip(rawLog), output, cfg.scale)))
  }
}
