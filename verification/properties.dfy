/**
 * What a replay produces, stated against independent descriptions: the
 * records kept by the filter, the README they write, the commits they make,
 * and how a message and a `--date` argument can be read back.
 */
module RecoveryProperties {
  import opened Wrappers
  import opened Strftime
  import opened PyStr
  import opened CommitmentRecovery

  // ------------------------------------------------------- the kept records

  /** The records whose author is in the filter list, in their original order. */
  function Kept(commits: seq<CommitRecord>, filters: seq<string>): seq<CommitRecord> {
    if commits == [] then []
    else
      var last := commits[|commits| - 1];
      Kept(commits[..|commits| - 1], filters) + (if last.userEmail in filters then [last] else [])
  }

  /** Positions of the records whose author is in the filter list. */
  function MatchingIndices(commits: seq<CommitRecord>, filters: seq<string>): set<nat> {
    set k: nat | k < |commits| && commits[k].userEmail in filters
  }

  lemma {:induction false} KeptAppend(a: seq<CommitRecord>, b: seq<CommitRecord>, filters: seq<string>)
    ensures Kept(a + b, filters) == Kept(a, filters) + Kept(b, filters)
    decreases |b|
  {
    if b == [] {
      assert a + b == a;
    } else {
      var b' := b[..|b| - 1];
      assert (a + b)[..|a + b| - 1] == a + b';
      KeptAppend(a, b', filters);
    }
  }

  /** Filtering commutes with reversal: the replay order is the reverse of the kept read order. */
  lemma {:induction false} KeptReversed(commits: seq<CommitRecord>, filters: seq<string>)
    ensures Kept(Reversed(commits), filters) == Reversed(Kept(commits, filters))
    decreases |commits|
  {
    if commits != [] {
      var n := |commits|;
      var last := commits[n - 1];
      var init := commits[..n - 1];
      assert Reversed(commits) == [last] + Reversed(init);
      KeptAppend([last], Reversed(init), filters);
      assert [last][..0] == [];
      KeptReversed(init, filters);
      var tail := if last.userEmail in filters then [last] else [];
      var k := Kept(init, filters);
      assert Kept(commits, filters) == k + tail;
      assert Reversed(k + tail) == tail + Reversed(k);
    }
  }

  /** A record is kept exactly as often as it occurs, if its author matches, and never otherwise. */
  lemma {:induction false} KeptMultiset(commits: seq<CommitRecord>, filters: seq<string>, c: CommitRecord)
    ensures multiset(Kept(commits, filters))[c] == if c.userEmail in filters then multiset(commits)[c] else 0
    decreases |commits|
  {
    if commits != [] {
      var n := |commits|;
      assert commits == commits[..n - 1] + [commits[n - 1]];
      KeptMultiset(commits[..n - 1], filters, c);
    }
  }

  /** Every kept record comes from the input and has a matching author. */
  lemma {:induction false} KeptAt(commits: seq<CommitRecord>, filters: seq<string>, k: nat)
    requires k < |Kept(commits, filters)|
    ensures Kept(commits, filters)[k] in commits
    ensures Kept(commits, filters)[k].userEmail in filters
    decreases |commits|
  {
    var n := |commits|;
    var init := commits[..n - 1];
    if k < |Kept(init, filters)| {
      KeptAt(init, filters, k);
      assert Kept(commits, filters)[k] == Kept(init, filters)[k];
      assert Kept(init, filters)[k] in commits;
    }
  }

  /** The number of kept records is the number of matching positions. */
  lemma {:induction false} KeptCount(commits: seq<CommitRecord>, filters: seq<string>)
    ensures |Kept(commits, filters)| == |MatchingIndices(commits, filters)|
    decreases |commits|
  {
    if commits != [] {
      var n := |commits|;
      var init := commits[..n - 1];
      KeptCount(init, filters);
      var before := MatchingIndices(init, filters);
      if commits[n - 1].userEmail in filters {
        assert MatchingIndices(commits, filters) == before + {n - 1};
        assert n - 1 !in before;
      } else {
        assert MatchingIndices(commits, filters) == before;
      }
    }
  }

  // ------------------------------------------------------ what is written

  function Messages(ks: seq<CommitRecord>, hideMessage: bool): (ms: seq<string>)
    ensures |ms| == |ks|
  {
    seq(|ks|, k requires 0 <= k < |ks| => Message(ks[k], hideMessage))
  }

  /** README.md after appending `m + "\n\n"` for each message, in order, to an empty file. */
  function ReadmeOf(ms: seq<string>): string {
    if ms == [] then "" else ReadmeOf(ms[..|ms| - 1]) + ms[|ms| - 1] + "\n\n"
  }

  /** The commits made for `ks`, in order, on top of a README that starts as `base`. */
  function Emitted(base: string, ks: seq<CommitRecord>, hideMessage: bool): seq<Commit> {
    if ks == [] then []
    else
      var last := ks[|ks| - 1];
      Emitted(base, ks[..|ks| - 1], hideMessage)
        + [Commit(Message(last, hideMessage), DateArgument(last.date), base + ReadmeOf(Messages(ks, hideMessage)))]
  }

  lemma {:induction false} ReadmeOfAppend(a: seq<string>, b: seq<string>)
    ensures ReadmeOf(a + b) == ReadmeOf(a) + ReadmeOf(b)
    decreases |b|
  {
    if b == [] {
      assert a + b == a;
    } else {
      var b' := b[..|b| - 1];
      assert (a + b)[..|a + b| - 1] == a + b';
      ReadmeOfAppend(a, b');
    }
  }

  /** README.md after k + 1 messages extends the one after k, and is a prefix of the final one. */
  lemma ReadmeAt(ms: seq<string>, k: nat)
    requires k < |ms|
    ensures ReadmeOf(ms[..k + 1]) == ReadmeOf(ms[..k]) + ms[k] + "\n\n"
    ensures ReadmeOf(ms[..k + 1]) <= ReadmeOf(ms)
  {
    var a := ms[..k + 1];
    assert a[..|a| - 1] == ms[..k];
    ReadmeIsPrefix(ms, k + 1);
  }

  lemma ReadmeIsPrefix(ms: seq<string>, n: nat)
    requires n <= |ms|
    ensures ReadmeOf(ms[..n]) <= ReadmeOf(ms)
  {
    var a, b := ms[..n], ms[n..];
    ReadmeOfAppend(a, b);
    PrefixOfAppend(ReadmeOf(a), ReadmeOf(b));
    assert a + b == ms;
  }

  /** Proof helper: the messages of a prefix of the records. */
  lemma MessagesPrefix(ks: seq<CommitRecord>, hideMessage: bool, n: nat)
    requires n <= |ks|
    ensures Messages(ks[..n], hideMessage) == Messages(ks, hideMessage)[..n]
  {
  }

  lemma {:induction false} EmittedLength(base: string, ks: seq<CommitRecord>, hideMessage: bool)
    ensures |Emitted(base, ks, hideMessage)| == |ks|
    decreases |ks|
  {
    if ks != [] {
      EmittedLength(base, ks[..|ks| - 1], hideMessage);
    }
  }

  /** The k-th emitted commit carries the k-th kept record's message and date, over the README so far. */
  lemma {:induction false} EmittedAt(base: string, ks: seq<CommitRecord>, hideMessage: bool, k: nat)
    requires k < |ks|
    ensures |Emitted(base, ks, hideMessage)| == |ks|
    ensures Emitted(base, ks, hideMessage)[k]
         == Commit(Message(ks[k], hideMessage), DateArgument(ks[k].date),
                   base + ReadmeOf(Messages(ks[..k + 1], hideMessage)))
    decreases |ks|
  {
    var n := |ks|;
    if k == n - 1 {
      assert ks[..k + 1] == ks;
      if n > 1 {
        EmittedAt(base, ks[..n - 1], hideMessage, 0);
      }
    } else {
      EmittedAt(base, ks[..n - 1], hideMessage, k);
      assert ks[..n - 1][..k + 1] == ks[..k + 1];
    }
  }

  /** Appending one more message to README.md. */
  lemma ReadmeSnoc(base: string, ms: seq<string>, m: string)
    ensures base + ReadmeOf(ms) + m + "\n\n" == base + ReadmeOf(ms + [m])
  {
    assert (ms + [m])[..|ms|] == ms;
  }

  /** Proof helper: the messages of one more record. */
  lemma MessagesSnoc(ks: seq<CommitRecord>, c: CommitRecord, hideMessage: bool)
    ensures Messages(ks + [c], hideMessage) == Messages(ks, hideMessage) + [Message(c, hideMessage)]
  {
  }

  /** Proof helper: the commits emitted for one more record. */
  lemma EmittedSnoc(base: string, ks: seq<CommitRecord>, c: CommitRecord, hideMessage: bool)
    ensures Emitted(base, ks + [c], hideMessage)
         == Emitted(base, ks, hideMessage)
              + [Commit(Message(c, hideMessage), DateArgument(c.date), base + ReadmeOf(Messages(ks + [c], hideMessage)))]
  {
    var ks' := ks + [c];
    assert ks'[..|ks'| - 1] == ks;
  }

  /** One commit on top of a state already in closed form keeps it in closed form. */
  lemma CommitStep(st: RepoState, before: RepoState, ms: seq<string>, log: seq<Commit>,
                   date: DateTime, m: string)
    requires before == RepoState(st.readme + ReadmeOf(ms), st.log + log)
    ensures AfterCommit(before, date, m)
         == RepoState(st.readme + ReadmeOf(ms + [m]),
                      st.log + (log + [Commit(m, DateArgument(date), st.readme + ReadmeOf(ms + [m]))]))
  {
    ReadmeSnoc(st.readme, ms, m);
  }

  /**
   * `git_commit` only adds: README.md keeps its old content and grows by the
   * message and a blank line, the old commits stay, and the one new commit
   * records the message, the `--date` of the given date and the new README.
   */
  lemma AfterCommitKeepsHistory(st: RepoState, date: DateTime, m: string)
    ensures var r := AfterCommit(st, date, m);
            && st.readme <= r.readme
            && r.readme[|st.readme|..] == m + "\n\n"
            && st.log <= r.log
            && |r.log| == |st.log| + 1
            && r.log[|st.log|] == Commit(m, DateArgument(date), r.readme)
  {
    var r := AfterCommit(st, date, m);
    Reassociate(st.readme, "", m, "\n\n");
    EmptyConcat(m);
    PrefixOfAppend(st.readme, m + "\n\n");
    SplitAt(st.readme, m + "\n\n");
    assert r.log[..|st.log|] == st.log;
  }

  /** Each emitted commit's README is the previous one's plus its own message. */
  lemma EmittedChain(base: string, ks: seq<CommitRecord>, hideMessage: bool, k: nat)
    requires k < |ks|
    ensures var log := Emitted(base, ks, hideMessage);
            && |log| == |ks|
            && log[k].readme == (if k == 0 then base else log[k - 1].readme) + log[k].message + "\n\n"
            && log[k].readme <= base + ReadmeOf(Messages(ks, hideMessage))
  {
    var log := Emitted(base, ks, hideMessage);
    var ms := Messages(ks, hideMessage);
    EmittedAt(base, ks, hideMessage, k);
    MessagesPrefix(ks, hideMessage, k + 1);
    var previous := if k == 0 then base else log[k - 1].readme;
    if k > 0 {
      EmittedAt(base, ks, hideMessage, k - 1);
      MessagesPrefix(ks, hideMessage, k);
    } else {
      assert ms[..0] == [];
    }
    assert previous == base + ReadmeOf(ms[..k]);
    ChainStep(base, ms, k, log[k].message, log[k].readme);
  }

  lemma ChainStep(base: string, ms: seq<string>, k: nat, m: string, current: string)
    requires k < |ms| && m == ms[k]
    requires current == base + ReadmeOf(ms[..k + 1])
    ensures current == base + ReadmeOf(ms[..k]) + m + "\n\n"
    ensures current <= base + ReadmeOf(ms)
  {
    ReadmeAt(ms, k);
    Reassociate(base, ReadmeOf(ms[..k]), m, "\n\n");
    PrefixUnderBase(base, ReadmeOf(ms[..k + 1]), ReadmeOf(ms));
  }

  /**
   * Replaying `commits` onto `st` appends, for exactly the kept records and
   * in their order, their messages to README.md and their commits to the log.
   */
  lemma {:induction false} ReplayClosedForm(st: RepoState, commits: seq<CommitRecord>,
                                            filters: seq<string>, hideMessage: bool)
    ensures Replay(st, commits, filters, hideMessage)
         == RepoState(st.readme + ReadmeOf(Messages(Kept(commits, filters), hideMessage)),
                      st.log + Emitted(st.readme, Kept(commits, filters), hideMessage))
    decreases |commits|
  {
    if commits != [] {
      var n := |commits|;
      var last := commits[n - 1];
      var init := commits[..n - 1];
      ReplayClosedForm(st, init, filters, hideMessage);
      var k := Kept(init, filters);
      if last.userEmail in filters {
        assert Kept(commits, filters) == k + [last];
        MessagesSnoc(k, last, hideMessage);
        EmittedSnoc(st.readme, k, last, hideMessage);
        CommitStep(st, Replay(st, init, filters, hideMessage), Messages(k, hideMessage),
                   Emitted(st.readme, k, hideMessage), last.date, Message(last, hideMessage));
      } else {
        assert Kept(commits, filters) == k;
        assert Replay(st, commits, filters, hideMessage) == Replay(st, init, filters, hideMessage);
      }
    }
  }

  // ---------------------------------------------------------- a whole run

  /**
   * A completed run has made one commit per matching record, oldest first:
   * the k-th commit of the target is the k-th of the kept records in reverse
   * read order, and README.md holds their messages in that order.
   */
  lemma RecoveredRun(args: Args, env: Environment)
    requires env.repo.Repo? && Recovery(args, env).Recovered?
    ensures var out := Recovery(args, env);
            var ks := Reversed(Kept(Records(env.repo.history), out.filters));
            && out.filters == EmailFilters(args.emailFilters, env.configEmail).value
            && out.target == TargetDirectory(args.target, args.source, env.now)
            && out.target !in env.directories
            && out.state.readme == ReadmeOf(Messages(ks, args.hideMessage))
            && out.state.log == Emitted("", ks, args.hideMessage)
            && |out.state.log| == |MatchingIndices(Records(env.repo.history), out.filters)|
  {
    var out := Recovery(args, env);
    var records := Records(env.repo.history);
    var filters := EmailFilters(args.emailFilters, env.configEmail);
    assert filters.Some?;
    var f := filters.value;
    var h := args.hideMessage;
    var t := TargetDirectory(args.target, args.source, env.now);
    assert t !in env.directories;
    assert out == Recovered(t, f, Replay(RepoState([], []), Reversed(records), f, h));
    ReplayClosedForm(RepoState([], []), Reversed(records), f, h);
    KeptReversed(records, f);
    var ks := Reversed(Kept(records, f));
    assert Kept(Reversed(records), f) == ks;
    assert out.state == RepoState([] + ReadmeOf(Messages(ks, h)), [] + Emitted([], ks, h));
    assert [] + ReadmeOf(Messages(ks, h)) == ReadmeOf(Messages(ks, h));
    assert [] + Emitted([], ks, h) == Emitted([], ks, h);
    KeptCount(records, f);
    EmittedLength("", ks, h);
  }

  /**
   * Each commit of a completed run: its message and `--date` come from the
   * record it replays, and its README is the one of the previous commit with
   * its own message appended.
   */
  lemma RecoveredCommit(args: Args, env: Environment, k: nat)
    requires env.repo.Repo? && Recovery(args, env).Recovered?
    requires k < |Recovery(args, env).state.log|
    ensures var out := Recovery(args, env);
            var ks := Reversed(Kept(Records(env.repo.history), out.filters));
            var log := out.state.log;
            && k < |ks|
            && ks[k].userEmail in out.filters
            && log[k].message == Message(ks[k], args.hideMessage)
            && log[k].date == DateArgument(ks[k].date)
            && log[k].readme == (if k == 0 then "" else log[k - 1].readme) + log[k].message + "\n\n"
            && log[k].readme <= out.state.readme
  {
    RecoveredRun(args, env);
    var out := Recovery(args, env);
    var records := Records(env.repo.history);
    var kept := Kept(records, out.filters);
    var ks := Reversed(kept);
    EmittedLength("", ks, args.hideMessage);
    EmittedAt("", ks, args.hideMessage, k);
    KeptAt(records, out.filters, |kept| - 1 - k);
    EmittedChain("", ks, args.hideMessage, k);
    EmptyConcat(ReadmeOf(Messages(ks, args.hideMessage)));
  }

  // ------------------------------------------------------------ the dates

  /** The `--date` argument fixes the year, month, day, hour, minute and second of the source date. */
  lemma DateArgumentDeterminesDate(d1: DateTime, d2: DateTime)
    requires DateArgument(d1) == DateArgument(d2)
    ensures d1.year == d2.year && d1.month == d2.month && d1.day == d2.day
    ensures d1.hour == d2.hour && d1.minute == d2.minute && d1.second == d2.second
  {
    FormatDeterminesFields(DatePattern, d1, d2, Year);
    FormatDeterminesFields(DatePattern, d1, d2, Month);
    FormatDeterminesFields(DatePattern, d1, d2, Day);
    FormatDeterminesFields(DatePattern, d1, d2, Hour);
    FormatDeterminesFields(DatePattern, d1, d2, Minute);
    FormatDeterminesFields(DatePattern, d1, d2, Second);
  }

  /** The `--date` argument is the 19-character date and time wrapped in literal double quotes. */
  lemma DateArgumentQuoted(d: DateTime)
    ensures |DateArgument(d)| == 21
    ensures DateArgument(d)[0] == '"' && DateArgument(d)[20] == '"'
  {
    FormatWrapped("\"", DateTimePattern, d);
    FormatLength(DateTimePattern, d);
  }

  /** The UTC offset of the source date does not reach `git commit --date`. */
  lemma DateArgumentIgnoresOffset(d: DateTime, offset: int)
    requires -86400 < offset < 86400
    ensures DateArgument(d) == DateArgument(d.(utcOffset := offset))
  {
    var d': DateTime := d.(utcOffset := offset);
    FormatIgnoresOtherFields(DatePattern, d, d');
  }

  // --------------------------------------------------------- the messages

  datatype MessageParts = MessageParts(dateFields: seq<nat>, message: string, hash: string)

  function LastIndexOf(s: string, c: char): (i: nat)
    requires c in s
    ensures i < |s| && s[i] == c && c !in s[i + 1..]
  {
    if s[|s| - 1] == c then |s| - 1
    else
      assert c in s[..|s| - 1];
      var i := LastIndexOf(s[..|s| - 1], c);
      assert s[i + 1..] == s[..|s| - 1][i + 1..] + [s[|s| - 1]];
      i
  }

  /** Splits `body + SourceTag + hash` at the last line break. */
  function ParseSourceLine(rest: string): Option<(string, string)> {
    if '\n' !in rest then None
    else
      var j := LastIndexOf(rest, '\n');
      if j + |SourceTag| <= |rest| && rest[j..j + |SourceTag|] == SourceTag
      then Some((rest[..j], rest[j + |SourceTag|..]))
      else None
  }

  /** Reads a full message back: the date prefix, the original message, and the hash after the last source line. */
  function ParseMessage(m: string): Option<MessageParts> {
    var w := PatternWidth(PrefixPattern);
    if |m| < w then None
    else
      match Scan(PrefixPattern, m[..w])
      case None => None
      case Some(fields) =>
        match ParseSourceLine(m[w..])
        case None => None
        case Some((body, hash)) => Some(MessageParts(fields, body, hash))
  }

  /** The last line break of `body + SourceTag + hash` is the one of the source tag. */
  lemma LastBreakIsSourceTag(body: string, hash: string)
    requires '\n' !in hash
    ensures var rest := body + SourceTag + hash;
            '\n' in rest && LastIndexOf(rest, '\n') == |body|
  {
    var rest := body + SourceTag + hash;
    var i := |body|;
    assert rest[i] == '\n';
    var j := LastIndexOf(rest, '\n');
    assert rest[i + 1..] == "source: " + hash;
  }

  lemma SourceLineRoundTrip(body: string, hash: string)
    requires '\n' !in hash
    ensures ParseSourceLine(body + SourceTag + hash) == Some((body, hash))
  {
    var rest := body + SourceTag + hash;
    var i := |body|;
    LastBreakIsSourceTag(body, hash);
    assert rest[i..i + |SourceTag|] == SourceTag;
    assert rest[..i] == body;
    assert rest[i + |SourceTag|..] == hash;
  }

  lemma ParseLayout(prefix: string, body: string, hash: string, fields: seq<nat>)
    requires |prefix| == PatternWidth(PrefixPattern)
    requires Scan(PrefixPattern, prefix) == Some(fields)
    requires '\n' !in hash
    ensures ParseMessage(prefix + body + SourceTag + hash) == Some(MessageParts(fields, body, hash))
  {
    var tail := body + SourceTag + hash;
    Reassociate(prefix, body, SourceTag, hash);
    SplitAt(prefix, tail);
    SourceLineRoundTrip(body, hash);
  }

  /**
   * A full message is the date prefix, the original message, the source line
   * and the hash, and all three can be read back from it.
   */
  lemma MessageRoundTrip(c: CommitRecord)
    requires '\n' !in c.hash
    ensures ParseMessage(Message(c, false))
         == Some(MessageParts(FieldValues(PrefixPattern, c.date), c.message, c.hash))
  {
    FormatLength(PrefixPattern, c.date);
    ScanFormat(PrefixPattern, c.date);
    ParseLayout(Format(PrefixPattern, c.date), c.message, c.hash, FieldValues(PrefixPattern, c.date));
  }

  /**
   * Every message begins with the commit's formatted authored date; a full
   * message ends with the source line naming the commit's hash.
   */
  lemma MessageLayout(c: CommitRecord, hideMessage: bool)
    ensures Format(if hideMessage then HiddenPattern else PrefixPattern, c.date) <= Message(c, hideMessage)
    ensures !hideMessage ==>
      var m := Message(c, false);
      |SourceTag + c.hash| <= |m| && m[|m| - |SourceTag + c.hash|..] == SourceTag + c.hash
  {
    if !hideMessage {
      FourParts(Format(PrefixPattern, c.date), c.message, SourceTag, c.hash);
    }
  }

  /** The characters a hidden message is made of. */
  predicate IsDateChar(ch: char) {
    IsDigit(ch) || ch == '/' || ch == ' ' || ch == ':'
  }

  /** The characters README.md is made of when messages are hidden. */
  predicate IsHiddenChar(ch: char) {
    IsDateChar(ch) || ch == '\n'
  }

  predicate AllHiddenChars(s: string) {
    forall i :: 0 <= i < |s| ==> IsHiddenChar(s[i])
  }

  /** A hidden message is the formatted date alone: digits and "/ :" only, on one line. */
  lemma HiddenMessageShape(c: CommitRecord)
    ensures forall i :: 0 <= i < |Message(c, true)| ==> IsDateChar(Message(c, true)[i])
    ensures '\n' !in Message(c, true)
  {
    HiddenPatternText();
    FormatWithin(HiddenPattern, c.date, {'/', ' ', ':'});
  }

  /** A hidden message has the same length, 19 characters, whatever the commit. */
  lemma HiddenMessageWidth(c: CommitRecord)
    ensures |Message(c, true)| == PatternWidth(HiddenPattern) == 19
  {
    FormatLength(HiddenPattern, c.date);
  }

  /** The literal text of the hidden pattern is made of "/", " " and ":". */
  lemma HiddenPatternText()
    ensures forall p, ch :: p in HiddenPattern && p.Text? && ch in p.text ==> ch in {'/', ' ', ':'}
  {
  }

  lemma {:induction false} HiddenReadmeChars(ks: seq<CommitRecord>)
    ensures AllHiddenChars(ReadmeOf(Messages(ks, true)))
    decreases |ks|
  {
    if ks != [] {
      var n := |ks|;
      var ms := Messages(ks, true);
      assert ms[..n - 1] == Messages(ks[..n - 1], true);
      HiddenReadmeChars(ks[..n - 1]);
      HiddenMessageShape(ks[n - 1]);
      HiddenCharsAppend(ReadmeOf(ms[..n - 1]), ms[n - 1]);
    }
  }

  lemma HiddenCharsAppend(readme: string, m: string)
    requires AllHiddenChars(readme)
    requires forall i :: 0 <= i < |m| ==> IsDateChar(m[i])
    ensures AllHiddenChars(readme + m + "\n\n")
  {
  }

  function Dates(ks: seq<CommitRecord>): seq<DateTime> {
    seq(|ks|, k requires 0 <= k < |ks| => ks[k].date)
  }

  lemma {:induction false} HiddenEmittedByDates(base: string, ks1: seq<CommitRecord>, ks2: seq<CommitRecord>)
    requires Dates(ks1) == Dates(ks2)
    ensures Messages(ks1, true) == Messages(ks2, true)
    ensures Emitted(base, ks1, true) == Emitted(base, ks2, true)
    decreases |ks1|
  {
    assert |ks1| == |Dates(ks1)|;
    assert forall k :: 0 <= k < |ks1| ==> ks1[k].date == Dates(ks1)[k];
    if ks1 != [] {
      var n := |ks1|;
      assert Dates(ks1[..n - 1]) == Dates(ks2[..n - 1]);
      HiddenEmittedByDates(base, ks1[..n - 1], ks2[..n - 1]);
    }
  }

  /** Proof helper: the dates of reversed records. */
  lemma DatesReversed(ks: seq<CommitRecord>)
    ensures Dates(Reversed(ks)) == Reversed(Dates(ks))
  {
  }

  /**
   * With messages hidden, the target repository depends on the kept records'
   * dates alone: two histories whose matching commits have the same dates
   * give the same README and the same commits, so no message or hash of the
   * source can reach the target.
   */
  lemma HiddenRecoveryDependsOnlyOnDates(args: Args, env: Environment, history: seq<GitCommit>)
    requires args.hideMessage && env.repo.Repo?
    requires (env.repo.history == []) == (history == [])
    requires var filters := EmailFilters(args.emailFilters, env.configEmail);
             filters.Some? ==>
               Dates(Kept(Records(env.repo.history), filters.value)) == Dates(Kept(Records(history), filters.value))
    ensures Recovery(args, env) == Recovery(args, env.(repo := Repo(history)))
  {
    var filters := EmailFilters(args.emailFilters, env.configEmail);
    if filters.Some? {
      var f := filters.value;
      var r1 := Records(env.repo.history);
      var r2 := Records(history);
      ReplayClosedForm(RepoState([], []), Reversed(r1), f, true);
      ReplayClosedForm(RepoState([], []), Reversed(r2), f, true);
      KeptReversed(r1, f);
      KeptReversed(r2, f);
      DatesReversed(Kept(r1, f));
      DatesReversed(Kept(r2, f));
      HiddenEmittedByDates("", Reversed(Kept(r1, f)), Reversed(Kept(r2, f)));
    }
  }

  /** With messages hidden, README.md holds only digits, "/", " ", ":" and line breaks. */
  lemma HiddenReadme(args: Args, env: Environment)
    requires args.hideMessage && env.repo.Repo? && Recovery(args, env).Recovered?
    ensures AllHiddenChars(Recovery(args, env).state.readme)
  {
    var out := Recovery(args, env);
    RecoveredRun(args, env);
    HiddenReadmeChars(Reversed(Kept(Records(env.repo.history), out.filters)));
  }

  // ------------------------------------------------------- proof helpers
  // One-step facts about strings, stated over plain string parameters so that
  // the proofs above never make the solver unfold a message.

  lemma EmptyConcat(x: string)
    ensures "" + x == x
  {
  }

  lemma PrefixOfAppend(x: string, y: string)
    ensures x <= x + y
  {
    assert (x + y)[..|x|] == x;
  }

  lemma Reassociate(a: string, b: string, c: string, d: string)
    ensures a + (b + c + d) == a + b + c + d
  {
  }

  lemma SplitAt(x: string, y: string)
    ensures (x + y)[..|x|] == x && (x + y)[|x|..] == y
  {
  }

  lemma PrefixUnderBase(base: string, x: string, y: string)
    requires x <= y
    ensures base + x <= base + y
  {
    assert (base + y)[..|base + x|] == base + y[..|x|];
  }

  lemma FourParts(a: string, b: string, c: string, d: string)
    ensures a <= a + b + c + d
    ensures var s := a + b + c + d;
            |c + d| <= |s| && s[|s| - |c + d|..] == c + d
  {
    var s := a + b + c + d;
    assert s == (a + b) + (c + d);
    assert s[..|a|] == a;
    assert s[|a + b|..] == c + d;
  }
}
