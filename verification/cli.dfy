/** The argument checks of ProducerApp.main and ConsumerApp.main: ordered
    guards, the first failing one ends the process with status 1. */
module Cli {
  import opened JavaString
  import Consumer

  /** The answers of the filesystem to the questions the entry points ask. */
  datatype FileSystem = FileSystem(
    validPath: JString -> bool,          // Paths.get accepts the string
    pathExists: JString -> bool,         // Files.exists
    isDirectory: JString -> bool,        // Files.isDirectory
    parent: JString -> Option<JString>)  // Path.getParent; None for a bare file name

  /** Which guard stopped the process. */
  datatype Failure =
    | MissingArguments   // usage message
    | BlankWatchDir
    | WatchDirMissing
    | NotADirectory
    | BlankTopic
    | BlankOutputFile
    | OutputDirMissing
    | InvalidPath        // Paths.get threw InvalidPathException, which main does not catch

  /** The verdict of the guards: go on with the value, or end with a status. */
  datatype Verdict<T> = Proceed(value: T) | Exit(status: int, failure: Failure)

  // ----- ProducerApp -----

  /** The guards of ProducerApp.main on `args`, in source order. */
  function CheckProducerArgs(args: seq<JString>, fs: FileSystem): (v: Verdict<JString>)
    ensures v.Proceed? <==>
      |args| >= 1 && !IsBlank(args[0]) && fs.validPath(args[0]) && fs.pathExists(args[0]) && fs.isDirectory(args[0])
    ensures v.Proceed? ==> v.value == args[0]
    ensures v.Exit? ==> v.status == 1
  {
    if |args| < 1 then Exit(1, MissingArguments)
    else
      var watchDir := args[0];
      if IsBlank(watchDir) then Exit(1, BlankWatchDir)
      else if !fs.validPath(watchDir) then Exit(1, InvalidPath)
      else if !fs.pathExists(watchDir) then Exit(1, WatchDirMissing)
      else if !fs.isDirectory(watchDir) then Exit(1, NotADirectory)
      else Proceed(watchDir)
  }

  /** Each failure is reported exactly when its guard is the first to fail;
      a blank argument is rejected without asking the filesystem. */
  lemma ProducerFirstFailureDecides(args: seq<JString>, fs: FileSystem, fs': FileSystem)
    ensures CheckProducerArgs(args, fs) == Exit(1, MissingArguments) <==> |args| == 0
    ensures CheckProducerArgs(args, fs) == Exit(1, BlankWatchDir) <==> |args| >= 1 && IsBlank(args[0])
    ensures CheckProducerArgs(args, fs) == Exit(1, InvalidPath) <==>
      |args| >= 1 && !IsBlank(args[0]) && !fs.validPath(args[0])
    ensures CheckProducerArgs(args, fs) == Exit(1, WatchDirMissing) <==>
      |args| >= 1 && !IsBlank(args[0]) && fs.validPath(args[0]) && !fs.pathExists(args[0])
    ensures CheckProducerArgs(args, fs) == Exit(1, NotADirectory) <==>
      |args| >= 1 && !IsBlank(args[0]) && fs.validPath(args[0]) && fs.pathExists(args[0]) && !fs.isDirectory(args[0])
    ensures |args| >= 1 && IsBlank(args[0]) ==> CheckProducerArgs(args, fs) == CheckProducerArgs(args, fs')
  {
  }

  /** Only the first argument is looked at. */
  lemma ProducerIgnoresExtraArgs(args: seq<JString>, fs: FileSystem)
    requires |args| >= 1
    ensures CheckProducerArgs(args, fs) == CheckProducerArgs(args[..1], fs)
  {
  }

  /** How the producer process ends. */
  datatype MainEnd = Returned | Exited(status: int)

  /** ProducerApp.main: the guards, then constructing the services and
      watching. `runThrows` says whether that part throws an exception that
      reaches `main`'s catch, which ends the process with status 1. Otherwise
      `watch()` returns, which it does only once its own catch has handled an
      `IOException` or `InterruptedException`. */
  function ProducerMain(args: seq<JString>, fs: FileSystem, runThrows: bool): (e: MainEnd)
    ensures e == Returned <==> CheckProducerArgs(args, fs).Proceed? && !runThrows
    ensures e != Returned ==> e == Exited(1)
  {
    match CheckProducerArgs(args, fs)
    case Exit(status, _) => Exited(status)
    case Proceed(_) => if runThrows then Exited(1) else Returned
  }

  // ----- ConsumerApp -----

  /** The guards of ConsumerApp.main on `args`, in source order; on success
      the topic and the output path. */
  function CheckConsumerArgs(args: seq<JString>, fs: FileSystem): (v: Verdict<(JString, JString)>)
    ensures v.Proceed? <==>
      && |args| >= 2 && !IsBlank(args[0]) && !IsBlank(args[1]) && fs.validPath(args[1])
      && (fs.parent(args[1]).Some? ==> fs.pathExists(fs.parent(args[1]).value))
    ensures v.Proceed? ==> v.value == (args[0], args[1])
    ensures v.Exit? ==> v.status == 1
  {
    if |args| < 2 then Exit(1, MissingArguments)
    else
      var topic := args[0];
      var outputFile := args[1];
      if IsBlank(topic) then Exit(1, BlankTopic)
      else if IsBlank(outputFile) then Exit(1, BlankOutputFile)
      else if !fs.validPath(outputFile) then Exit(1, InvalidPath)
      else
        match fs.parent(outputFile)
        case Some(dir) => if fs.pathExists(dir) then Proceed((topic, outputFile)) else Exit(1, OutputDirMissing)
        case None => Proceed((topic, outputFile))
  }

  /** Each failure is reported exactly when its guard is the first to fail:
      the topic is checked before the output path, and a bare file name (no
      parent) skips the directory check. */
  lemma ConsumerFirstFailureDecides(args: seq<JString>, fs: FileSystem)
    ensures CheckConsumerArgs(args, fs) == Exit(1, MissingArguments) <==> |args| < 2
    ensures CheckConsumerArgs(args, fs) == Exit(1, BlankTopic) <==> |args| >= 2 && IsBlank(args[0])
    ensures CheckConsumerArgs(args, fs) == Exit(1, BlankOutputFile) <==>
      |args| >= 2 && !IsBlank(args[0]) && IsBlank(args[1])
    ensures CheckConsumerArgs(args, fs) == Exit(1, InvalidPath) <==>
      |args| >= 2 && !IsBlank(args[0]) && !IsBlank(args[1]) && !fs.validPath(args[1])
    ensures CheckConsumerArgs(args, fs) == Exit(1, OutputDirMissing) <==>
      && |args| >= 2 && !IsBlank(args[0]) && !IsBlank(args[1]) && fs.validPath(args[1])
      && fs.parent(args[1]).Some? && !fs.pathExists(fs.parent(args[1]).value)
  {
  }

  /** Only the first two arguments are looked at. */
  lemma ConsumerIgnoresExtraArgs(args: seq<JString>, fs: FileSystem)
    requires |args| >= 2
    ensures CheckConsumerArgs(args, fs) == CheckConsumerArgs(args[..2], fs)
  {
    assert args[..2][0] == args[0] && args[..2][1] == args[1];
  }

  /** ConsumerApp.main: the guards, then constructing the service and
      consuming. `constructionThrows` says whether building the service
      throws; `end` says how `consume()` ended. An exception from either,
      including one from the consumer's `close()`, is caught and ends the
      process with status 1; a write failure is caught inside `consume()`,
      which then returns, and so does main. */
  function ConsumerMain(args: seq<JString>, fs: FileSystem, constructionThrows: bool, end: Consumer.ConsumeEnd): (e: MainEnd)
    ensures e == Returned <==>
      CheckConsumerArgs(args, fs).Proceed? && !constructionThrows && end == Consumer.WriteFailed
    ensures e != Returned ==> e == Exited(1)
  {
    match CheckConsumerArgs(args, fs)
    case Exit(status, _) => Exited(status)
    case Proceed(_) =>
      if constructionThrows then Exited(1)
      else
        match end
        case WriteFailed => Returned
        case PollThrew => Exited(1)
        case CloseThrew => Exited(1)
  }
}
