/**
 * commitment-recovery: read the commit history of a source repository, keep
 * the commits authored by the filtered e-mail addresses, and replay them,
 * oldest first, as commits of a fresh repository.  Each replayed commit
 * appends its message to README.md and is committed with the source
 * commit's authored date.
 *
 * GitPython, `git config`, the clock, the file system and `git` itself are
 * not modelled; what they contribute is an `Environment` value, and the
 * target repository is a `Repository` object holding README.md and the log.
 */
module CommitmentRecovery {
  import opened Wrappers
  import opened Strftime
  import opened PyStr

  // ---------------------------------------------------------------- inputs

  /** The attributes of a GitPython commit that the tool reads. */
  datatype GitCommit = GitCommit(authoredDatetime: DateTime, message: string,
                                 authorEmail: string, hexsha: string)

  /** What opening the source path with `git.Repo` gives. */
  datatype SourceRepo =
    | NoSuchPath                            // git.exc.NoSuchPathError
    | NotARepository                        // any other exception of git.Repo
    | Repo(history: seq<GitCommit>)         // repo.iter_commits(), newest first; [] when HEAD is unborn

  /** The command line after argument parsing; `source` is already in host form. */
  datatype Args = Args(source: string, target: Option<string>,
                       emailFilters: Option<string>, hideMessage: bool)

  /** What the run observes of the outside world. */
  datatype Environment = Environment(
    repo: SourceRepo,
    configEmail: Option<string>,   // output of `git config user.email`, None when it fails
    now: DateTime,                 // datetime.now()
    directories: set<string>)      // paths os.mkdir would find already taken

  // ------------------------------------------------------------ read phase

  /** One entry of `commits_list`. */
  datatype CommitRecord = CommitRecord(date: DateTime, message: string,
                                       userEmail: string, hash: string)

  function ToRecord(c: GitCommit): CommitRecord {
    CommitRecord(c.authoredDatetime, Strip(c.message), c.authorEmail, c.hexsha)
  }

  /** `commits_list` as a value: one record per commit, in traversal order. */
  function Records(history: seq<GitCommit>): seq<CommitRecord> {
    seq(|history|, k requires 0 <= k < |history| => ToRecord(history[k]))
  }

  /** The read loop: append one record per commit of the history. */
  method ReadHistory(history: seq<GitCommit>) returns (commitsList: seq<CommitRecord>)
    ensures |commitsList| == |history|
    ensures forall k :: 0 <= k < |history| ==>
      && commitsList[k].date == history[k].authoredDatetime
      && commitsList[k].message == Strip(history[k].message)
      && commitsList[k].userEmail == history[k].authorEmail
      && commitsList[k].hash == history[k].hexsha
    ensures commitsList == Records(history)
  {
    commitsList := [];
    for i := 0 to |history|
      invariant |commitsList| == i
      invariant forall k :: 0 <= k < i ==> commitsList[k] == ToRecord(history[k])
    {
      var commit := history[i];
      commitsList := commitsList + [CommitRecord(commit.authoredDatetime, Strip(commit.message),
                                                 commit.authorEmail, commit.hexsha)];
    }
  }

  // ----------------------------------------------------------- filter list

  /**
   * `email_filters`: the explicit list split on ',', otherwise the single
   * address `git config user.email` prints (stripped); None when neither
   * is available, which ends the run.
   */
  function EmailFilters(explicit: Option<string>, configEmail: Option<string>): (r: Option<seq<string>>)
    ensures r.None? <==> explicit.None? && configEmail.None?
    ensures explicit.Some? ==> r.Some? && |r.value| >= 1 && Join(r.value, ',') == explicit.value
    ensures explicit.Some? ==> forall k :: 0 <= k < |r.value| ==> ',' !in r.value[k]
    ensures explicit.None? && configEmail.Some? ==> r == Some([Strip(configEmail.value)])
  {
    match explicit
    case Some(list) =>
      JoinSplit(list, ',');
      Some(Split(list, ','))
    case None =>
      match configEmail
      case Some(email) => Some([Strip(email)])
      case None => None
  }

  // ----------------------------------------------------------- target name

  const RecoverySuffix := "-commitment-recovery-"

  /** '%Y-%m-%d-%H-%M-%S' */
  const StampPattern: seq<Piece> :=
    [Year, Text("-"), Month, Text("-"), Day, Text("-"), Hour, Text("-"), Minute, Text("-"), Second]

  /**
   * The explicit target, verbatim, or the source path followed by the suffix
   * and the current time; the time can be read back from the name.
   */
  function TargetDirectory(target: Option<string>, sourcePath: string, now: DateTime): (dir: string)
    ensures target.Some? ==> dir == target.value
    ensures target.None? ==>
      && |dir| == |sourcePath| + |RecoverySuffix| + PatternWidth(StampPattern)
      && dir[..|sourcePath|] == sourcePath
      && dir[|sourcePath|..|sourcePath| + |RecoverySuffix|] == RecoverySuffix
      && Scan(StampPattern, dir[|sourcePath| + |RecoverySuffix|..]) == Some(FieldValues(StampPattern, now))
  {
    match target
    case Some(t) => t
    case None =>
      var stamp := Format(StampPattern, now);
      FormatLength(StampPattern, now);
      ScanFormat(StampPattern, now);
      Concat3(sourcePath, RecoverySuffix, stamp);
      sourcePath + RecoverySuffix + stamp
  }

  /** Proof helper: the three parts of a string built by two concatenations. */
  lemma Concat3(a: string, b: string, c: string)
    ensures |a + b + c| == |a| + |b| + |c|
    ensures (a + b + c)[..|a|] == a
    ensures (a + b + c)[|a|..|a| + |b|] == b
    ensures (a + b + c)[|a| + |b|..] == c
  {
    assert (a + b + c)[..|a|] == (a + b)[..|a|];
  }

  // -------------------------------------------------------------- messages

  /** '%Y/%m/%d %H:%M:%S', the whole message when messages are hidden. */
  const HiddenPattern: seq<Piece> :=
    [Year, Text("/"), Month, Text("/"), Day, Text(" "), Hour, Text(":"), Minute, Text(":"), Second]

  /** '%Y/%m/%d (%H:%M:%S): ', the prefix of a full message. */
  const PrefixPattern: seq<Piece> :=
    [Year, Text("/"), Month, Text("/"), Day, Text(" ("), Hour, Text(":"), Minute, Text(":"), Second, Text("): ")]

  /** '%Y-%m-%d %H:%M:%S' */
  const DateTimePattern: seq<Piece> :=
    [Year, Text("-"), Month, Text("-"), Day, Text(" "), Hour, Text(":"), Minute, Text(":"), Second]

  /** '"%Y-%m-%d %H:%M:%S"', the value given to `git commit --date`, quotes included. */
  const DatePattern: seq<Piece> := [Text("\"")] + DateTimePattern + [Text("\"")]

  const SourceTag := "\nsource: "

  /** The message of the replayed commit for `c`. */
  function Message(c: CommitRecord, hideMessage: bool): string {
    if hideMessage then Format(HiddenPattern, c.date)
    else Format(PrefixPattern, c.date) + c.message + SourceTag + c.hash
  }

  /** The `--date` argument for a commit authored at `d`. */
  function DateArgument(d: DateTime): string {
    Format(DatePattern, d)
  }

  // ------------------------------------------------------ target repository

  /** A commit of the target: `git commit -m message --date date` over a tree whose README.md is `readme`. */
  datatype Commit = Commit(message: string, date: string, readme: string)

  datatype RepoState = RepoState(readme: string, log: seq<Commit>)

  /** The effect of `git_commit(date, message)` on the target repository. */
  function AfterCommit(st: RepoState, date: DateTime, message: string): RepoState {
    var readme := st.readme + message + "\n\n";
    RepoState(readme, st.log + [Commit(message, DateArgument(date), readme)])
  }

  /** The target repository after `git init`: the working tree's README.md and the commits on `main`. */
  class Repository {
    const path: string
    var readme: string
    var log: seq<Commit>

    /** os.mkdir(path), os.chdir(path), git init -b main. */
    constructor (path: string)
      ensures this.path == path && readme == [] && log == []
    {
      this.path := path;
      readme := [];
      log := [];
    }

    function State(): RepoState
      reads this
    {
      RepoState(readme, log)
    }

    /** git_commit: append the message to README.md, stage everything, commit with the given date. */
    method GitCommit(date: DateTime, message: string)
      modifies this
      ensures readme == old(readme) + message + "\n\n"
      ensures log == old(log) + [Commit(message, DateArgument(date), readme)]
      ensures State() == AfterCommit(old(State()), date, message)
    {
      readme := readme + message + "\n\n";
      log := log + [Commit(message, DateArgument(date), readme)];
    }
  }

  // ------------------------------------------------------------ replay loop

  /** `reversed(s)`. */
  function Reversed<T>(s: seq<T>): (r: seq<T>)
    ensures |r| == |s|
    ensures forall k :: 0 <= k < |s| ==> r[k] == s[|s| - 1 - k]
  {
    if s == [] then [] else [s[|s| - 1]] + Reversed(s[..|s| - 1])
  }

  /** The state after the loop has visited `commits` in order, starting from `st`. */
  function Replay(st: RepoState, commits: seq<CommitRecord>, filters: seq<string>, hideMessage: bool): RepoState {
    if commits == [] then st
    else
      var last := commits[|commits| - 1];
      var before := Replay(st, commits[..|commits| - 1], filters, hideMessage);
      if last.userEmail in filters then AfterCommit(before, last.date, Message(last, hideMessage))
      else before
  }

  /** Proof helper: one more step of the loop. */
  lemma ReplayStep(st: RepoState, commits: seq<CommitRecord>, c: CommitRecord,
                   filters: seq<string>, hideMessage: bool)
    ensures Replay(st, commits + [c], filters, hideMessage)
         == if c.userEmail in filters
            then AfterCommit(Replay(st, commits, filters, hideMessage), c.date, Message(c, hideMessage))
            else Replay(st, commits, filters, hideMessage)
  {
    assert (commits + [c])[..|commits|] == commits;
  }

  /** The loop of `main` over `reversed(commits_list)`. */
  method ReplayHistory(repo: Repository, commitsList: seq<CommitRecord>,
                       emailFilters: seq<string>, hideMessage: bool)
    modifies repo
    ensures repo.State() == Replay(old(repo.State()), Reversed(commitsList), emailFilters, hideMessage)
  {
    ghost var start := repo.State();
    var order := Reversed(commitsList);
    for i := 0 to |order|
      invariant repo.State() == Replay(start, order[..i], emailFilters, hideMessage)
    {
      var commit := order[i];
      var message := Message(commit, hideMessage);
      ReplayStep(start, order[..i], commit, emailFilters, hideMessage);
      if commit.userEmail in emailFilters {
        repo.GitCommit(commit.date, message);
      }
      assert order[..i + 1] == order[..i] + [commit];
    }
    assert order[..|order|] == order;
  }

  // ------------------------------------------------------------------- main

  datatype Outcome =
    | SourceMissing(path: string)        // printed, main returns None
    | InvalidRepository(path: string)    // exception from git.Repo propagates
    | UnbornHead(path: string)           // ValueError from iter_commits on a repository without commits propagates
    | ConfigUnavailable                  // printed, main returns None
    | TargetExists(path: string)         // FileExistsError from os.mkdir propagates
    | Recovered(target: string, filters: seq<string>, state: RepoState)

  /** What a run of `main` ends with. */
  function Recovery(args: Args, env: Environment): Outcome {
    match env.repo
    case NoSuchPath => SourceMissing(args.source)
    case NotARepository => InvalidRepository(args.source)
    case Repo(history) =>
      if history == [] then UnbornHead(args.source)
      else match EmailFilters(args.emailFilters, env.configEmail)
      case None => ConfigUnavailable
      case Some(filters) =>
        var target := TargetDirectory(args.target, args.source, env.now);
        if target in env.directories then TargetExists(target)
        else
          var st := Replay(RepoState([], []), Reversed(Records(history)), filters, args.hideMessage);
          Recovered(target, filters, st)
  }

  /** main: read the history, resolve the filters and target, create the target, replay. */
  method Recover(args: Args, env: Environment) returns (outcome: Outcome)
    ensures outcome == Recovery(args, env)
  {
    if env.repo.NoSuchPath? {
      return SourceMissing(args.source);
    } else if env.repo.NotARepository? {
      return InvalidRepository(args.source);
    } else if env.repo.history == [] {
      return UnbornHead(args.source);
    }
    var commitsList := ReadHistory(env.repo.history);
    var emailFilters := EmailFilters(args.emailFilters, env.configEmail);
    if emailFilters.None? {
      return ConfigUnavailable;
    }
    var target := TargetDirectory(args.target, args.source, env.now);
    if target in env.directories {
      return TargetExists(target);
    }
    var repo := new Repository(target);
    ReplayHistory(repo, commitsList, emailFilters.value, args.hideMessage);
    outcome := Recovered(target, emailFilters.value, repo.State());
  }
}
