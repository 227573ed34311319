/**
 * `timew2ctt.py`: exports the closed intervals of one Timewarrior project to ctt by
 * running `ctt track --start S --end E PROJECT` once per interval, the description
 * on the command's standard input.
 */
module CttExport {
  import opened Wrappers
  import opened Text
  import opened Seqs
  import opened Timew
  import Current

  const ProjectKey := "reports.ctt.project"
  const DestinationKey := "reports.ctt.ctt_project"

  /** What `exit(1, ...)` writes to standard error when no project is configured. */
  const UsageMessages := ["Set reports.ctt.project to the project you want to export:",
                          "  $ timew config reports.ctt.project my_proj"]

  /** `has_project(entry, project)`: the project itself, or a dotted sub-project of it, is a tag. */
  predicate HasProject(tags: seq<string>, project: string) {
    project in tags || exists t :: t in tags && StartsWith(t, project + ".")
  }

  /** One tag matches exactly when it is the project, or the project followed by a dot and more. */
  lemma HasProjectOneTag(t: string, project: string)
    ensures HasProject([t], project) <==>
              t == project || (|t| > |project| && t[..|project|] == project && t[|project|] == '.')
  {
    var p := project + ".";
    if |t| > |project| && t[..|project|] == project && t[|project|] == '.' {
      assert t[..|p|] == p;
    }
    if StartsWith(t, p) {
      assert t[..|project|] == t[..|p|][..|project|];
      assert t[|project|] == t[..|p|][|project|];
    }
  }

  /** Intervals of a sub-project are exported with their parent project. */
  lemma SubProjectHasParent(tags: seq<string>, project: string, sub: string)
    requires HasProject(tags, project + "." + sub)
    ensures HasProject(tags, project)
  {
    var p := project + ".";
    var q := project + "." + sub;
    if q in tags {
      assert q[..|p|] == p;
      assert StartsWith(q, p);
    } else {
      var t :| t in tags && StartsWith(t, q + ".");
      assert t[..|p|] == t[..|q + "."|][..|p|];
      assert (q + ".")[..|p|] == p;
      assert StartsWith(t, p);
    }
  }

  lemma HasProjectExamples()
    ensures HasProject(["acme"], "acme")
    ensures HasProject(["acme.phase1"], "acme")
    ensures !HasProject(["acmecorp"], "acme")
  {
    HasProjectOneTag("acme.phase1", "acme");
    HasProjectOneTag("acmecorp", "acme");
    assert "acmecorp"[4] == 'c';
  }

  function MatchesProject(project: string): Entry -> bool {
    (e: Entry) => HasProject(e.tags, project)
  }

  /**
   * `strftime(strptime(t, TW_DATEFORMAT), CTT_DATEFORMAT)` on a fixed-width timestamp:
   * `YYYY-MM-DD-HHMM`.
   */
  function ToCtt(t: Timestamp): (r: string)
    ensures |r| == 15 && r[4] == '-' && r[7] == '-' && r[10] == '-'
    ensures forall k :: 0 <= k < 15 && k != 4 && k != 7 && k != 10 ==> IsDigit(r[k])
  {
    t[0..4] + "-" + t[4..6] + "-" + t[6..8] + "-" + t[9..11] + t[11..13]
  }

  /** Puts the separators back out and the seconds back in. */
  function FromCtt(c: string, seconds: string): string
    requires |c| == 15
  {
    c[0..4] + c[5..7] + c[8..10] + "T" + c[11..15] + seconds + "Z"
  }

  /** Only the seconds are lost in the conversion. */
  lemma ToCttLosesOnlySeconds(t: Timestamp)
    ensures FromCtt(ToCtt(t), t[13..15]) == t
  {
    var c := ToCtt(t);
    var date := t[0..4] + "-" + t[4..6] + "-" + t[6..8] + "-";
    assert c == date + t[9..13] by {
      assert t[9..13] == t[9..11] + t[11..13];
    }
    assert c[11..15] == t[9..13];
    assert c[0..4] == t[0..4] && c[5..7] == t[4..6] && c[8..10] == t[6..8];
    assert t == t[0..4] + t[4..6] + t[6..8] + "T" + t[9..13] + t[13..15] + "Z";
  }

  /** Two timestamps convert alike exactly when they fall in the same minute. */
  lemma ToCttSameMinute(a: Timestamp, b: Timestamp)
    ensures ToCtt(a) == ToCtt(b) <==> a[..13] == b[..13]
  {
    if ToCtt(a) == ToCtt(b) {
      ToCttLosesOnlySeconds(a);
      ToCttLosesOnlySeconds(b);
      assert a[..13] == FromCtt(ToCtt(a), a[13..15])[..13];
      assert b[..13] == FromCtt(ToCtt(b), b[13..15])[..13];
    }
    if a[..13] == b[..13] {
      assert a[0..4] == a[..13][0..4] && a[4..6] == a[..13][4..6] && a[6..8] == a[..13][6..8];
      assert a[9..11] == a[..13][9..11] && a[11..13] == a[..13][11..13];
      assert b[0..4] == b[..13][0..4] && b[4..6] == b[..13][4..6] && b[6..8] == b[..13][6..8];
      assert b[9..11] == b[..13][9..11] && b[11..13] == b[..13][11..13];
    }
  }

  /** The inline description of the export loop: space-containing tags joined with "; ", no fallback. */
  function ExportDescription(tags: seq<string>): string {
    Join(SpaceTags(tags), "; ")
  }

  /**
   * The export description is the space-containing tags, in order, or empty when there are
   * none; where some tag has a space it is the description `current.py` prints.
   */
  lemma ExportDescriptionReadsBack(tags: seq<string>)
    requires forall i :: 0 <= i < |tags| ==> !Contains(tags[i], "; ")
    ensures (exists i :: 0 <= i < |tags| && HasSpace(tags[i])) ==>
              Split(ExportDescription(tags), "; ") == SpaceTags(tags)
              && ExportDescription(tags) == Current.Description(tags)
    ensures (forall i :: 0 <= i < |tags| ==> !HasSpace(tags[i])) ==> ExportDescription(tags) == ""
  {
    Current.SemicolonSeparatorHasNoBorder();
    var descs := SpaceTags(tags);
    FilterEmpty(HasSpace, tags);
    if descs != [] {
      forall i | 0 <= i < |descs| ensures !Contains(descs[i], "; ") {
        assert descs[i] in tags;
      }
      JoinThenSplit(descs, "; ");
    }
  }

  /** The external command run for one closed interval: argument list and standard input. */
  datatype Invocation = Invocation(argv: seq<string>, input: string)

  function TrackInvocation(e: Entry, dest: string): Invocation
    requires IsClosed(e)
  {
    Invocation(["ctt", "track", "--start", ToCtt(e.start), "--end", ToCtt(e.end.value), dest],
               ExportDescription(e.tags))
  }

  /** How a run of the exporter ends. */
  datatype Outcome =
    | Completed
    | InputFailed(error: InputError)                  // `parse_input` or `json.loads` raised
    | KeyMissing(key: string)                         // `config[key]` raised `KeyError`
    | UsageError(status: int, stderr: seq<string>)    // `exit(1, ...)`
    | CommandFailed(invocation: Invocation, status: int) // `check=True` raised `CalledProcessError`

  /** The outcome, the commands started in order, and the lines printed to standard output. */
  datatype Run = Run(outcome: Outcome, issued: seq<Invocation>, stdout: seq<string>)

  /** `config["reports.ctt.ctt_project"] or project` */
  function Destination(config: Config, project: string): string
    requires DestinationKey in config
  {
    if config[DestinationKey] == "" then project else config[DestinationKey]
  }

  /** The commands for the closed entries among `es`, in order (the loop skips open ones). */
  function Exported(es: seq<Entry>, dest: string): seq<Invocation>
    decreases |es|
  {
    if es == [] then []
    else
      var last := es[|es| - 1];
      Exported(es[..|es| - 1], dest) + (if IsClosed(last) then [TrackInvocation(last, dest)] else [])
  }

  lemma {:induction false} ExportedAppend(a: seq<Entry>, b: seq<Entry>, dest: string)
    ensures Exported(a + b, dest) == Exported(a, dest) + Exported(b, dest)
    decreases |b|
  {
    if b == [] {
      assert a + b == a;
    } else {
      var init := b[..|b| - 1];
      assert (a + b)[..|a + b| - 1] == a + init;
      ExportedAppend(a, init, dest);
    }
  }

  /** The loop issues one command per closed entry, in order: the closed entries, mapped to their commands. */
  lemma {:induction false} ExportedIsFilterMap(es: seq<Entry>, dest: string)
    ensures |Exported(es, dest)| == |Filter(IsClosed, es)|
    ensures forall j :: 0 <= j < |Exported(es, dest)| ==>
              Filter(IsClosed, es)[j] in Filter(IsClosed, es)
              && Exported(es, dest)[j] == TrackInvocation(Filter(IsClosed, es)[j], dest)
    decreases |es|
  {
    if es != [] {
      var init := es[..|es| - 1];
      var last := es[|es| - 1];
      ExportedIsFilterMap(init, dest);
      assert es == init + [last];
      FilterAppend(IsClosed, init, [last]);
      assert [last][1..] == [];
      var closed, done := Filter(IsClosed, es), Exported(es, dest);
      assert |done| == |closed|;
      forall j | 0 <= j < |done|
        ensures closed[j] in closed && done[j] == TrackInvocation(closed[j], dest)
      {
        if j < |Exported(init, dest)| {
          assert done[j] == Exported(init, dest)[j];
          assert closed[j] == Filter(IsClosed, init)[j];
        }
      }
    }
  }

  /** The lines ` - <description>` printed after each command that succeeded. */
  function Progress(issued: seq<Invocation>): (lines: seq<string>)
    ensures |lines| == |issued|
    ensures forall j :: 0 <= j < |issued| ==> lines[j] == " - " + issued[j].input
    decreases |issued|
  {
    if issued == [] then []
    else Progress(issued[..|issued| - 1]) + [" - " + issued[|issued| - 1].input]
  }

  /**
   * The index of the first command whose exit status is not 0, counting from `from`,
   * or `|plan|` when none fails; `status(n, c)` is the exit status of `c` run as the
   * command numbered `n`.
   */
  function FirstFailure(plan: seq<Invocation>, status: (nat, Invocation) -> int, from: nat): (k: nat)
    requires from <= |plan|
    ensures from <= k <= |plan|
    ensures forall j :: from <= j < k ==> status(j, plan[j]) == 0
    ensures k < |plan| ==> status(k, plan[k]) != 0
    decreases |plan| - from
  {
    if from == |plan| then from
    else if status(from, plan[from]) != 0 then from
    else FirstFailure(plan, status, from + 1)
  }

  function Banner(project: string, dest: string): seq<string> {
    ["Exporting for taskwarrior project: " + project,
     "Importing under ctt project " + dest,
     "(set timewarrior config reports.ctt.ctt_project to change)",
     ""]
  }

  /**
   * The export loop over the selected entries, after `head` has been printed: the
   * commands for the closed entries up to and including the first that fails.
   */
  function TrackAll(selected: seq<Entry>, dest: string, status: (nat, Invocation) -> int, head: seq<string>): Run {
    var plan := Exported(selected, dest);
    var k := FirstFailure(plan, status, 0);
    if k < |plan| then
      Run(CommandFailed(plan[k], status(k, plan[k])), plan[..k + 1], head + Progress(plan[..k]))
    else
      Run(Completed, plan, head + Progress(plan) + ["", "Import completed."])
  }

  /** `main` after `parse_input`, for a configuration and decoded entries. */
  function ExportFrom(config: Config, entries: seq<Entry>, status: (nat, Invocation) -> int): Run {
    if ProjectKey !in config then Run(KeyMissing(ProjectKey), [], [])
    else
      var project := config[ProjectKey];
      if project == "" then Run(UsageError(1, UsageMessages), [], [])
      else if DestinationKey !in config then
        Run(KeyMissing(DestinationKey), [], ["Exporting for taskwarrior project: " + project])
      else
        var dest := Destination(config, project);
        TrackAll(Filter(MatchesProject(project), entries), dest, status, Banner(project, dest))
  }

  /** `main` once `parse_input` has returned or raised, with `decode` standing for `json.loads`. */
  function ExportParsed(parsed: Result<(Config, string), ParseError>, decode: string -> Option<seq<Entry>>,
                        status: (nat, Invocation) -> int): Run
  {
    match parsed
    case Failure(e) => Run(InputFailed(Unparsable(e)), [], [])
    case Success(p) =>
      match decode(p.1)
      case None => Run(InputFailed(BodyNotDecoded), [], [])
      case Some(entries) => ExportFrom(p.0, entries, status)
  }

  /** `main`, with `decode` standing for `json.loads`. */
  function ExportSpec(stdin: string, decode: string -> Option<seq<Entry>>, status: (nat, Invocation) -> int): Run {
    ExportParsed(ParseInputSpec(stdin), decode, status)
  }

  /**
   * `main`: parse the input, check the configuration, then run the export loop.
   */
  method Export(stdin: string, decode: string -> Option<seq<Entry>>, status: (nat, Invocation) -> int)
    returns (run: Run)
    ensures run == ExportSpec(stdin, decode, status)
  {
    var parsed := ParseInput(stdin);
    run := ExportAfterParse(parsed, decode, status);
  }

  /** The rest of `main` once `parse_input` has returned or raised. */
  method ExportAfterParse(parsed: Result<(Config, string), ParseError>, decode: string -> Option<seq<Entry>>,
                          status: (nat, Invocation) -> int)
    returns (run: Run)
    ensures run == ExportParsed(parsed, decode, status)
  {
    if parsed.Failure? {
      return Run(InputFailed(Unparsable(parsed.error)), [], []);
    }
    var config, body := parsed.value.0, parsed.value.1;
    var decoded := decode(body);
    if decoded.None? {
      return Run(InputFailed(BodyNotDecoded), [], []);
    }
    run := ExportConfigured(config, decoded.value, status);
  }

  /** The body of `main` once the configuration and the entries are known. */
  method ExportConfigured(config: Config, entries: seq<Entry>, status: (nat, Invocation) -> int)
    returns (run: Run)
    ensures run == ExportFrom(config, entries, status)
  {
    if ProjectKey !in config {
      return Run(KeyMissing(ProjectKey), [], []);
    }
    var project := config[ProjectKey];
    if project == "" {
      return Run(UsageError(1, UsageMessages), [], []);
    }
    var out := ["Exporting for taskwarrior project: " + project];
    if DestinationKey !in config {
      return Run(KeyMissing(DestinationKey), [], out);
    }
    var dest := Destination(config, project);
    out := out + ["Importing under ctt project " + dest,
                  "(set timewarrior config reports.ctt.ctt_project to change)"];
    out := out + [""];
    assert out == Banner(project, dest);
    run := TrackEach(Filter(MatchesProject(project), entries), dest, status, out);
  }

  /**
   * The `for` loop of `main`: skip open entries, run one `ctt track` per closed entry
   * and print its description, and stop at the first command that fails.
   */
  method TrackEach(selected: seq<Entry>, dest: string, status: (nat, Invocation) -> int, head: seq<string>)
    returns (run: Run)
    ensures run == TrackAll(selected, dest, status, head)
  {
    var out := head;
    var issued: seq<Invocation> := [];
    var i := 0;
    while i < |selected|
      invariant 0 <= i <= |selected|
      invariant LoopState(selected[..i], dest, status, head, issued, out)
    {
      var e := selected[i];
      if IsOpen(e) {
        SkipStep(selected, i, dest, status, head, issued, out);
        i := i + 1;
        continue;
      }
      var inv := TrackInvocation(e, dest);
      var code := status(|issued|, inv);
      if code != 0 {
        TrackAllStops(selected, i, dest, status, head);
        return Run(CommandFailed(inv, code), issued + [inv], out);
      }
      TrackStep(selected, i, dest, status, head, issued, out);
      issued := issued + [inv];
      out := out + [" - " + inv.input];
      i := i + 1;
    }
    assert selected[..i] == selected;
    TrackAllCompletes(selected, dest, status, head);
    run := Run(Completed, issued, out + ["", "Import completed."]);
  }

  /** What the export loop has done after the entries `done`: commands issued, all succeeded, lines printed. */
  predicate LoopState(done: seq<Entry>, dest: string, status: (nat, Invocation) -> int, head: seq<string>,
                      issued: seq<Invocation>, out: seq<string>)
  {
    issued == Exported(done, dest) && AllSucceeded(issued, status) && out == head + Progress(issued)
  }

  lemma SkipStep(selected: seq<Entry>, i: nat, dest: string, status: (nat, Invocation) -> int, head: seq<string>,
                 issued: seq<Invocation>, out: seq<string>)
    requires i < |selected| && IsOpen(selected[i])
    requires LoopState(selected[..i], dest, status, head, issued, out)
    ensures LoopState(selected[..i + 1], dest, status, head, issued, out)
  {
    ExportedStep(selected, i, dest);
  }

  lemma TrackStep(selected: seq<Entry>, i: nat, dest: string, status: (nat, Invocation) -> int, head: seq<string>,
                  issued: seq<Invocation>, out: seq<string>)
    requires i < |selected| && IsClosed(selected[i])
    requires LoopState(selected[..i], dest, status, head, issued, out)
    requires status(|issued|, TrackInvocation(selected[i], dest)) == 0
    ensures var inv := TrackInvocation(selected[i], dest);
            LoopState(selected[..i + 1], dest, status, head, issued + [inv], out + [" - " + inv.input])
  {
    var inv := TrackInvocation(selected[i], dest);
    ExportedStep(selected, i, dest);
    ProgressStep(issued, inv);
    AllSucceededStep(issued, inv, status);
  }

  lemma ProgressStep(issued: seq<Invocation>, inv: Invocation)
    ensures Progress(issued + [inv]) == Progress(issued) + [" - " + inv.input]
  {
    assert (issued + [inv])[..|issued|] == issued;
  }

  lemma ExportedStep(es: seq<Entry>, i: nat, dest: string)
    requires i < |es|
    ensures IsOpen(es[i]) ==> Exported(es[..i + 1], dest) == Exported(es[..i], dest)
    ensures IsClosed(es[i]) ==> Exported(es[..i + 1], dest) == Exported(es[..i], dest) + [TrackInvocation(es[i], dest)]
  {
    assert es[..i + 1][..i] == es[..i];
  }

  /** Every command in `issued` exited with status 0. */
  predicate AllSucceeded(issued: seq<Invocation>, status: (nat, Invocation) -> int) {
    forall j :: 0 <= j < |issued| ==> status(j, issued[j]) == 0
  }

  lemma AllSucceededStep(issued: seq<Invocation>, inv: Invocation, status: (nat, Invocation) -> int)
    requires AllSucceeded(issued, status) && status(|issued|, inv) == 0
    ensures AllSucceeded(issued + [inv], status)
  {
  }

  /** A failure right after a run of successes is where the loop stops. */
  lemma TrackAllStops(selected: seq<Entry>, i: nat, dest: string, status: (nat, Invocation) -> int, head: seq<string>)
    requires i < |selected| && IsClosed(selected[i])
    requires var done := Exported(selected[..i], dest);
             AllSucceeded(done, status) && status(|done|, TrackInvocation(selected[i], dest)) != 0
    ensures var done := Exported(selected[..i], dest);
            var inv := TrackInvocation(selected[i], dest);
            TrackAll(selected, dest, status, head)
            == Run(CommandFailed(inv, status(|done|, inv)), done + [inv], head + Progress(done))
  {
    var done := Exported(selected[..i], dest);
    var inv := TrackInvocation(selected[i], dest);
    ExportedStep(selected, i, dest);
    ExportedPrefix(selected, i + 1, dest);
    var plan := Exported(selected, dest);
    assert plan[..|done| + 1] == done + [inv];
    assert plan[|done|] == plan[..|done| + 1][|done|];
    assert forall j :: 0 <= j < |done| ==> plan[j] == plan[..|done| + 1][j];
    var k := FirstFailure(plan, status, 0);
    assert k == |done|;
    assert plan[..k] == done;
  }

  /** When every command succeeds the loop runs to the end and prints the closing lines. */
  lemma TrackAllCompletes(selected: seq<Entry>, dest: string, status: (nat, Invocation) -> int, head: seq<string>)
    requires AllSucceeded(Exported(selected, dest), status)
    ensures var plan := Exported(selected, dest);
            TrackAll(selected, dest, status, head) == Run(Completed, plan, head + Progress(plan) + ["", "Import completed."])
  {
    var plan := Exported(selected, dest);
    assert FirstFailure(plan, status, 0) == |plan|;
  }

  lemma ExportedPrefix(es: seq<Entry>, i: nat, dest: string)
    requires i <= |es|
    ensures |Exported(es[..i], dest)| <= |Exported(es, dest)|
    ensures Exported(es, dest)[..|Exported(es[..i], dest)|] == Exported(es[..i], dest)
  {
    assert es == es[..i] + es[i..];
    ExportedAppend(es[..i], es[i..], dest);
  }

  /** The entries the loop exports for `project`: closed, tagged with the project or a sub-project, in input order. */
  function Exportable(entries: seq<Entry>, project: string): (r: seq<Entry>)
    ensures |r| <= |entries|
    ensures forall i :: 0 <= i < |r| ==> IsClosed(r[i]) && HasProject(r[i].tags, project)
    ensures forall e :: e in r <==> e in entries && IsClosed(e) && HasProject(e.tags, project)
  {
    var r := Filter(IsClosed, Filter(MatchesProject(project), entries));
    assert forall i :: 0 <= i < |r| ==> r[i] in r;
    r
  }

  /**
   * The run ended on a failed command: the last one issued, reported with its exit
   * status, which is not 0, after every earlier command succeeded.
   */
  predicate FailedOnLast(run: Run, status: (nat, Invocation) -> int) {
    run.outcome.CommandFailed? && |run.issued| > 0
    && var n := |run.issued| - 1;
       run.outcome.invocation == run.issued[n] && run.outcome.status == status(n, run.issued[n])
       && run.outcome.status != 0 && AllSucceeded(run.issued[..n], status)
  }

  /**
   * The loop issues a prefix of the planned commands: all of them when every one
   * succeeds, otherwise up to and including the first that fails.
   */
  lemma TrackAllIssuesPrefix(selected: seq<Entry>, dest: string, status: (nat, Invocation) -> int, head: seq<string>)
    ensures var run := TrackAll(selected, dest, status, head);
            var plan := Exported(selected, dest);
            |run.issued| <= |plan| && run.issued == plan[..|run.issued|]
            && (run.outcome.Completed? <==> run.issued == plan && AllSucceeded(plan, status))
            && (!run.outcome.Completed? ==> FailedOnLast(run, status))
  {
    var plan := Exported(selected, dest);
    var k := FirstFailure(plan, status, 0);
    if k < |plan| {
      assert plan[..k + 1][..k] == plan[..k];
      assert !AllSucceeded(plan, status);
    } else {
      assert plan[..|plan|] == plan;
    }
  }

  /**
   * After `head` the loop prints one line per command that succeeded and, when all
   * did, an empty line and the closing message.
   */
  lemma TrackAllPrints(selected: seq<Entry>, dest: string, status: (nat, Invocation) -> int, head: seq<string>)
    ensures var run := TrackAll(selected, dest, status, head);
            (run.outcome.Completed? ==> run.stdout == head + Progress(run.issued) + ["", "Import completed."])
            && (!run.outcome.Completed? ==> |run.issued| > 0 && run.stdout == head + Progress(run.issued[..|run.issued| - 1]))
  {
    var plan := Exported(selected, dest);
    var k := FirstFailure(plan, status, 0);
    if k < |plan| {
      assert plan[..k + 1][..k] == plan[..k];
    }
  }

  /** The same, counted against the closed entries among `selected`. */
  lemma TrackAllIssuesClosed(selected: seq<Entry>, dest: string, status: (nat, Invocation) -> int, head: seq<string>)
    ensures var run := TrackAll(selected, dest, status, head);
            var closed := Filter(IsClosed, selected);
            |run.issued| <= |closed|
            && (forall j :: 0 <= j < |run.issued| ==> closed[j] in closed && run.issued[j] == TrackInvocation(closed[j], dest))
            && (run.outcome.Completed? <==> |run.issued| == |closed| && AllSucceeded(run.issued, status))
            && (!run.outcome.Completed? ==> FailedOnLast(run, status))
  {
    TrackAllIssuesPrefix(selected, dest, status, head);
    ExportedIsFilterMap(selected, dest);
    var run := TrackAll(selected, dest, status, head);
    var plan := Exported(selected, dest);
    var closed := Filter(IsClosed, selected);
    forall j | 0 <= j < |run.issued|
      ensures closed[j] in closed && run.issued[j] == TrackInvocation(closed[j], dest)
    {
      assert run.issued[j] == plan[..|run.issued|][j] == plan[j];
    }
  }

  /**
   * With the project set and the destination key present, `main` runs `ctt track`
   * for the closed entries of the project in input order, each with its start and end
   * in ctt's format, the destination project and the space-containing tags as
   * description, stopping at the first command that fails; it reports completion
   * exactly when every exportable entry was exported and every command succeeded.
   */
  lemma ExportIssuesExportable(config: Config, entries: seq<Entry>, status: (nat, Invocation) -> int)
    requires ProjectKey in config && config[ProjectKey] != "" && DestinationKey in config
    ensures var project := config[ProjectKey];
            var dest := Destination(config, project);
            var todo := Exportable(entries, project);
            var run := ExportFrom(config, entries, status);
            |run.issued| <= |todo|
            && (forall j :: 0 <= j < |run.issued| ==> run.issued[j] == TrackInvocation(todo[j], dest))
            && (run.outcome.Completed? <==> |run.issued| == |todo| && AllSucceeded(run.issued, status))
            && (!run.outcome.Completed? ==> FailedOnLast(run, status))
  {
    var project := config[ProjectKey];
    var dest := Destination(config, project);
    TrackAllIssuesClosed(Filter(MatchesProject(project), entries), dest, status, Banner(project, dest));
  }

  /** Before the loop `main` prints the project, the destination, the hint and an empty line. */
  lemma ExportPrintsBanner(config: Config, entries: seq<Entry>, status: (nat, Invocation) -> int)
    requires ProjectKey in config && config[ProjectKey] != "" && DestinationKey in config
    ensures var project := config[ProjectKey];
            var run := ExportFrom(config, entries, status);
            |run.stdout| >= 4 && run.stdout[..4] == Banner(project, Destination(config, project))
  {
    var project := config[ProjectKey];
    var dest := Destination(config, project);
    var selected := Filter(MatchesProject(project), entries);
    TrackAllPrints(selected, dest, status, Banner(project, dest));
  }

  /** On input written in the protocol, `main` exports from the header's configuration and the decoded body. */
  lemma ExportOnProtocolInput(lines: seq<string>, body: string, decode: string -> Option<seq<Entry>>,
                              status: (nat, Invocation) -> int)
    requires |lines| > 0 && WellFormedHeader(lines)
    requires forall i :: 0 <= i < |lines| ==> '\n' !in lines[i]
    requires !Contains(body, "\n\n")
    ensures decode(body).None? ==>
              ExportSpec(Join(lines, "\n") + "\n\n" + body, decode, status) == Run(InputFailed(BodyNotDecoded), [], [])
    ensures HeaderConfig(lines).Success?
            && (decode(body).Some? ==>
                  ExportSpec(Join(lines, "\n") + "\n\n" + body, decode, status)
                  == ExportFrom(HeaderConfig(lines).value, decode(body).value, status))
  {
    ParseRoundTrip(lines, body);
  }

  /** Standard input that `parse_input` rejects ends the run before any output or command. */
  lemma ExportRejectsUnparsable(stdin: string, decode: string -> Option<seq<Entry>>, status: (nat, Invocation) -> int)
    requires ParseInputSpec(stdin).Failure?
    ensures ExportSpec(stdin, decode, status) == Run(InputFailed(Unparsable(ParseInputSpec(stdin).error)), [], [])
  {
  }

  /**
   * The configuration errors: a missing key is a failed lookup, and an empty project
   * exits with status 1 and the two usage lines; no command is started in either case.
   */
  lemma ExportConfigErrors(config: Config, entries: seq<Entry>, status: (nat, Invocation) -> int)
    ensures ProjectKey !in config ==> ExportFrom(config, entries, status) == Run(KeyMissing(ProjectKey), [], [])
    ensures ProjectKey in config && config[ProjectKey] == "" ==>
              ExportFrom(config, entries, status) == Run(UsageError(1, UsageMessages), [], [])
    ensures ProjectKey in config && config[ProjectKey] != "" && DestinationKey !in config ==>
              ExportFrom(config, entries, status)
              == Run(KeyMissing(DestinationKey), [], ["Exporting for taskwarrior project: " + config[ProjectKey]])
  {
  }

  /**
   * Every command names the same destination: the configured ctt project when it is
   * not empty, otherwise the exported project; it is never empty.
   */
  lemma ExportDestination(config: Config, entries: seq<Entry>, status: (nat, Invocation) -> int)
    requires ProjectKey in config && config[ProjectKey] != "" && DestinationKey in config
    ensures var run := ExportFrom(config, entries, status);
            var wanted := if config[DestinationKey] != "" then config[DestinationKey] else config[ProjectKey];
            wanted != ""
            && forall j :: 0 <= j < |run.issued| ==> |run.issued[j].argv| == 7 && run.issued[j].argv[6] == wanted
  {
    ExportIssuesExportable(config, entries, status);
  }

  /** A closed interval of project `proj` with a multi-word tag. */
  const ExampleEntry := Entry("20240105T093012Z", Some("20240105T114559Z"), ["proj", "proj.sub build feature"])

  /** The seconds are dropped, not rounded. */
  lemma ToCttExamples()
    ensures ToCtt("20240105T093012Z") == "2024-01-05-0930"
    ensures ToCtt("20240105T114559Z") == "2024-01-05-1145"
  {
    var a := "20240105T093012Z";
    assert a[0..4] == "2024";
    assert a[4..6] == "01";
    assert a[6..8] == "05";
    assert a[9..11] == "09";
    assert a[11..13] == "30";
    var b := "20240105T114559Z";
    assert b[0..4] == "2024";
    assert b[4..6] == "01";
    assert b[6..8] == "05";
    assert b[9..11] == "11";
    assert b[11..13] == "45";
  }

  /** Its command: minute-precision times, destination `proj`, the multi-word tag on standard input. */
  lemma ExampleCommand()
    ensures TrackInvocation(ExampleEntry, "proj")
            == Invocation(["ctt", "track", "--start", "2024-01-05-0930", "--end", "2024-01-05-1145", "proj"],
                          "proj.sub build feature")
  {
    var tags := ExampleEntry.tags;
    ToCttExamples();
    assert SpaceTags(tags) == ["proj.sub build feature"] by {
      assert !HasSpace(tags[0]) && HasSpace(tags[1]);
      assert tags[1..] == ["proj.sub build feature"];
    }
  }

  /**
   * With `reports.ctt.project` set to `proj` and no separate destination, the example
   * interval is exported by exactly that one command, and the export completes.
   */
  lemma ExportExample()
    ensures var config := map[ProjectKey := "proj", DestinationKey := ""];
            var run := ExportFrom(config, [ExampleEntry], (n: nat, c: Invocation) => 0);
            run.outcome == Completed
            && run.issued == [Invocation(["ctt", "track", "--start", "2024-01-05-0930", "--end", "2024-01-05-1145", "proj"],
                                         "proj.sub build feature")]
  {
    var config := map[ProjectKey := "proj", DestinationKey := ""];
    var ok := (n: nat, c: Invocation) => 0;
    assert ExportFrom(config, [ExampleEntry], ok)
           == TrackAll(Filter(MatchesProject("proj"), [ExampleEntry]), "proj", ok, Banner("proj", "proj"));
    assert Filter(MatchesProject("proj"), [ExampleEntry]) == [ExampleEntry] by {
      assert "proj" in ExampleEntry.tags;
      assert [ExampleEntry][1..] == [];
    }
    assert Exported([ExampleEntry], "proj") == [TrackInvocation(ExampleEntry, "proj")] by {
      assert [ExampleEntry][..0] == [];
    }
    TrackAllCompletes([ExampleEntry], "proj", ok, Banner("proj", "proj"));
    ExampleCommand();
  }
}
