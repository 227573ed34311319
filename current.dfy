/**
 * `current.py`: prints the interval that is being tracked right now as one line,
 * `<description> [<minutes>:<seconds>]`, or nothing when no interval is open.
 */
module Current {
  import opened Wrappers
  import opened Text
  import opened Seqs
  import opened Timew

  /**
   * `description(entry)`: the space-containing tags, or every tag when none has a space,
   * joined with "; ".
   */
  function Description(tags: seq<string>): string {
    var descs := SpaceTags(tags);
    Join(if descs == [] then tags else descs, "; ")
  }

  lemma SemicolonSeparatorHasNoBorder()
    ensures NoBorder("; ")
  {
    assert "; "[1..][0] == ' ' && "; "[..1][0] == ';';
  }

  /**
   * The description can be cut back into the tags it was made of: the space-containing
   * tags in their order when there is one, otherwise all tags.
   */
  lemma DescriptionReadsBack(tags: seq<string>)
    requires tags != []
    requires forall i :: 0 <= i < |tags| ==> !Contains(tags[i], "; ")
    ensures (exists i :: 0 <= i < |tags| && HasSpace(tags[i])) ==>
              Split(Description(tags), "; ") == SpaceTags(tags)
    ensures (forall i :: 0 <= i < |tags| ==> !HasSpace(tags[i])) ==>
              Split(Description(tags), "; ") == tags
  {
    SemicolonSeparatorHasNoBorder();
    var descs := SpaceTags(tags);
    FilterEmpty(HasSpace, tags);
    if descs != [] {
      forall i | 0 <= i < |descs| ensures !Contains(descs[i], "; ") {
        assert descs[i] in tags;
      }
      JoinThenSplit(descs, "; ");
    } else {
      JoinThenSplit(tags, "; ");
    }
  }

  /** `timedelta.seconds`: what is left after whole days (Python floors, so never negative). */
  function DaySeconds(elapsed: int): (s: nat)
    ensures s < 86400
    ensures (elapsed - s) % 86400 == 0
  {
    elapsed % 86400
  }

  /**
   * `format_timedelta(d)` for a timedelta of `elapsed` whole seconds:
   * `'{}:{:02}'.format(*divmod(d.seconds, 60))`.
   */
  function FormatTimedelta(elapsed: int): string {
    var secs := DaySeconds(elapsed);
    Decimal(secs / 60) + ":" + TwoDigits(secs % 60)
  }

  /** Reads `m:ss` back as minutes and seconds. */
  function ReadClock(text: string): Option<(nat, nat)> {
    match IndexOf(text, ":")
    case None => None
    case Some(i) =>
      var m, ss := text[..i], text[i + 1..];
      if m != [] && AllDigits(m) && |ss| == 2 && AllDigits(ss) && DigitsValue(ss) < 60
      then Some((DigitsValue(m), DigitsValue(ss)))
      else None
  }

  /**
   * The formatted duration reads back as minutes and seconds that add up to `d.seconds`;
   * the minutes stay below 1440 because whole days are dropped.
   */
  lemma FormatTimedeltaReadsBack(elapsed: int)
    ensures var r := ReadClock(FormatTimedelta(elapsed));
            r.Some? && r.value.0 * 60 + r.value.1 == DaySeconds(elapsed)
            && r.value.0 < 1440 && r.value.1 < 60
  {
    var secs := DaySeconds(elapsed);
    var m := Decimal(secs / 60);
    var ss := TwoDigits(secs % 60);
    ContainsChar(m, ':');
    SeparatorAfterPart(m, ":", ss);
    var text := m + ":" + ss;
    assert text[..|m|] == m && text[|m| + 1..] == ss;
    DecimalRoundTrip(secs / 60);
  }

  /** Two durations print alike exactly when they agree on `d.seconds`. */
  lemma FormatTimedeltaInjective(a: int, b: int)
    ensures FormatTimedelta(a) == FormatTimedelta(b) <==> DaySeconds(a) == DaySeconds(b)
  {
    FormatTimedeltaReadsBack(a);
    FormatTimedeltaReadsBack(b);
  }

  lemma FormatTimedeltaExamples()
    ensures FormatTimedelta(125) == "2:05"
    ensures FormatTimedelta(59) == "0:59"
    ensures FormatTimedelta(60) == "1:00"
    ensures FormatTimedelta(3661) == "61:01"
    ensures FormatTimedelta(86400 + 61) == "1:01"
  {
    assert DaySeconds(125) == 2 * 60 + 5;
    ClockText(125, 2, 5, "2", "05");
    assert DaySeconds(59) == 0 * 60 + 59;
    ClockText(59, 0, 59, "0", "59");
    assert DaySeconds(60) == 1 * 60 + 0;
    ClockText(60, 1, 0, "1", "00");
    assert DaySeconds(3661) == 61 * 60 + 1;
    assert Decimal(61) == "61" by { assert Decimal(6) == "6"; }
    ClockText(3661, 61, 1, "61", "01");
    assert DaySeconds(86400 + 61) == 1 * 60 + 1;
    ClockText(86400 + 61, 1, 1, "1", "01");
  }

  lemma ClockText(elapsed: int, m: nat, ss: nat, mText: string, ssText: string)
    requires DaySeconds(elapsed) == m * 60 + ss && ss < 60
    requires Decimal(m) == mText && TwoDigits(ss) == ssText
    ensures FormatTimedelta(elapsed) == mText + ":" + ssText
  {
    var secs := DaySeconds(elapsed);
    assert secs / 60 == m && secs % 60 == ss;
  }

  /** `[e for e in entries if "end" not in e][0]`, or None where that raises `IndexError`. */
  function CurrentEntry(entries: seq<Entry>): Option<Entry> {
    var open := Filter(IsOpen, entries);
    if open == [] then None else Some(open[0])
  }

  /** The current entry is the first open one. */
  lemma CurrentEntryIsFirstOpen(entries: seq<Entry>, i: nat)
    requires i < |entries| && IsOpen(entries[i])
    requires forall j :: 0 <= j < i ==> IsClosed(entries[j])
    ensures CurrentEntry(entries) == Some(entries[i])
  {
    FilterHead(IsOpen, entries, i);
  }

  /** There is no current entry exactly when every entry is closed. */
  lemma CurrentEntryNone(entries: seq<Entry>)
    ensures CurrentEntry(entries) == None <==> forall j :: 0 <= j < |entries| ==> IsClosed(entries[j])
  {
    FilterEmpty(IsOpen, entries);
  }

  /**
   * What `main` prints, for entries already decoded; `secondsSince(start)` is the
   * number of whole seconds from `start` to the wall clock's now.
   */
  function StatusLine(entries: seq<Entry>, secondsSince: Timestamp -> int): Option<string> {
    match CurrentEntry(entries)
    case None => None
    case Some(e) => Some(Description(e.tags) + " [" + FormatTimedelta(secondsSince(e.start)) + "]")
  }

  /**
   * With an open entry the line is the first open entry's description, then its running
   * time in brackets (which reads back to `d.seconds`), and nothing after the bracket.
   */
  lemma StatusLineOfFirstOpen(entries: seq<Entry>, secondsSince: Timestamp -> int, i: nat)
    requires i < |entries| && IsOpen(entries[i])
    requires forall j :: 0 <= j < i ==> IsClosed(entries[j])
    ensures var e := entries[i];
            var t := FormatTimedelta(secondsSince(e.start));
            StatusLine(entries, secondsSince) == Some(Description(e.tags) + " [" + t + "]")
            && ReadClock(t).Some?
            && ReadClock(t).value.0 * 60 + ReadClock(t).value.1 == DaySeconds(secondsSince(e.start))
  {
    CurrentEntryIsFirstOpen(entries, i);
    FormatTimedeltaReadsBack(secondsSince(entries[i].start));
  }

  /** With every entry closed nothing at all is printed. */
  lemma StatusLineNothingOpen(entries: seq<Entry>, secondsSince: Timestamp -> int)
    requires forall j :: 0 <= j < |entries| ==> IsClosed(entries[j])
    ensures StatusLine(entries, secondsSince) == None
  {
    CurrentEntryNone(entries);
  }

  /**
   * `main`: parse standard input, decode the body with `decode` (standing for
   * `json.loads`), then print the status line or nothing.
   */
  function Main(stdin: string, decode: string -> Option<seq<Entry>>, secondsSince: Timestamp -> int)
    : Result<Option<string>, InputError>
  {
    match ParseInputSpec(stdin)
    case Failure(e) => Failure(Unparsable(e))
    case Success(parsed) =>
      match decode(parsed.1)
      case None => Failure(BodyNotDecoded)
      case Some(entries) => Success(StatusLine(entries, secondsSince))
  }

  /** On input written in the protocol, `main` prints the status line of the decoded entries. */
  lemma MainOnProtocolInput(lines: seq<string>, body: string, decode: string -> Option<seq<Entry>>,
                            secondsSince: Timestamp -> int)
    requires |lines| > 0 && WellFormedHeader(lines)
    requires forall i :: 0 <= i < |lines| ==> '\n' !in lines[i]
    requires !Contains(body, "\n\n")
    ensures decode(body).None? ==> Main(Join(lines, "\n") + "\n\n" + body, decode, secondsSince) == Failure(BodyNotDecoded)
    ensures decode(body).Some? ==>
              Main(Join(lines, "\n") + "\n\n" + body, decode, secondsSince)
              == Success(StatusLine(decode(body).value, secondsSince))
  {
    ParseRoundTrip(lines, body);
  }

  lemma DescriptionExamples()
    ensures Description(["work", "client a meeting"]) == "client a meeting"
    ensures Description(["work", "urgent"]) == "work; urgent"
    ensures Description([]) == ""
  {
    assert SpaceTags(["work", "client a meeting"]) == ["client a meeting"] by {
      assert !HasSpace("work") && HasSpace("client a meeting");
      assert ["work", "client a meeting"][1..] == ["client a meeting"];
    }
    assert SpaceTags(["work", "urgent"]) == [] by {
      assert !HasSpace("work") && !HasSpace("urgent");
      assert ["work", "urgent"][1..] == ["urgent"];
    }
  }
}
