/**
 * The input protocol that Timewarrior extensions read on standard input, shared by
 * both scripts: configuration lines `key: value`, an empty line, then a JSON array of
 * time entries. `parse_input` is the same function in both scripts.
 */
module Timew {
  import opened Wrappers
  import opened Text
  import opened Seqs

  /** Fixed-width `YYYYMMDDTHHMMSSZ` (the `%Y%m%dT%H%M%SZ` format of both scripts). */
  predicate IsTimestamp(s: string) {
    |s| == 16 && s[8] == 'T' && s[15] == 'Z'
    && forall k :: 0 <= k < 16 && k != 8 && k != 15 ==> IsDigit(s[k])
  }

  type Timestamp = s: string | IsTimestamp(s) witness "19700101T000000Z"

  /** One decoded element of the JSON body; `end` is absent while the interval is still open. */
  datatype Entry = Entry(start: Timestamp, end: Option<Timestamp>, tags: seq<string>)

  predicate IsOpen(e: Entry) {
    e.end.None?
  }

  predicate IsClosed(e: Entry) {
    e.end.Some?
  }

  /** A tag with a space in it is taken to be free-text description. */
  predicate HasSpace(tag: string) {
    ' ' in tag
  }

  /** `[t for t in entry['tags'] if ' ' in t]` */
  function SpaceTags(tags: seq<string>): seq<string> {
    Filter(HasSpace, tags)
  }

  type Config = map<string, string>

  /** Why `parse_input` raises. */
  datatype ParseError =
    | PartCount(parts: nat)      // `header, body = ....split('\n\n')` did not find exactly two parts
    | MissingColon(line: string) // `k, v = line.split(':', 1)` found no colon in a header line

  /** What stops a script before it looks at the entries. */
  datatype InputError =
    | Unparsable(reason: ParseError)
    | BodyNotDecoded             // `json.loads(body)` failed, or the body is not a list of entries

  predicate HasColon(line: string) {
    ':' in line
  }

  /** `k, v = line.split(':', 1)` followed by `k.strip()` and `v.strip()`; None when unpacking fails. */
  function KeyValue(line: string): (r: Option<(string, string)>)
    ensures r.Some? <==> HasColon(line)
    ensures r.Some? ==> !HasColon(r.value.0)
  {
    ContainsChar(line, ':');
    match IndexOf(line, ":")
    case None => None
    case Some(i) =>
      var raw := line[..i];
      PrefixBeforeFirst(line, ":", i);
      ContainsChar(raw, ':');
      Some((Strip(raw), Strip(line[i + 1..])))
  }

  function Key(line: string): string
    requires HasColon(line)
  {
    KeyValue(line).value.0
  }

  function Value(line: string): string
    requires HasColon(line)
  {
    KeyValue(line).value.1
  }

  /** The line is cut at its first colon only, so the value may itself contain colons. */
  lemma KeyValueOfPair(k: string, v: string)
    requires !HasColon(k)
    ensures KeyValue(k + ":" + v) == Some((Strip(k), Strip(v)))
  {
    ContainsChar(k, ':');
    SeparatorAfterPart(k, ":", v);
    var line := k + ":" + v;
    assert line[..|k|] == k && line[|k| + 1..] == v;
  }

  predicate WellFormedHeader(lines: seq<string>) {
    forall i :: 0 <= i < |lines| ==> HasColon(lines[i])
  }

  /** How one header line is read: a key and a value, or None when the line is rejected. */
  type LineReader = string -> Option<(string, string)>

  predicate AllRead(read: LineReader, lines: seq<string>) {
    forall i :: 0 <= i < |lines| ==> read(lines[i]).Some?
  }

  /**
   * The loop of `parse_input` over the header lines, for a given way of reading one
   * line: each pair is stored in turn; the first rejected line stops it.
   */
  function Fill(read: LineReader, lines: seq<string>): Result<Config, ParseError>
    decreases |lines|
  {
    if lines == [] then Success(map[])
    else
      var line := lines[|lines| - 1];
      match Fill(read, lines[..|lines| - 1])
      case Failure(e) => Failure(e)
      case Success(config) =>
        match read(line)
        case None => Failure(MissingColon(line))
        case Some(kv) => Success(config[kv.0 := kv.1])
  }

  lemma {:induction false} FillAccepts(read: LineReader, lines: seq<string>)
    ensures Fill(read, lines).Success? <==> AllRead(read, lines)
    decreases |lines|
  {
    if lines != [] {
      var init := lines[..|lines| - 1];
      FillAccepts(read, init);
      assert AllRead(read, lines) <==> AllRead(read, init) && read(lines[|lines| - 1]).Some? by {
        assert forall i :: 0 <= i < |init| ==> init[i] == lines[i];
      }
    }
  }

  lemma {:induction false} FillRejectsFirst(read: LineReader, lines: seq<string>, i: nat)
    requires i < |lines| && read(lines[i]).None?
    requires forall j :: 0 <= j < i ==> read(lines[j]).Some?
    ensures Fill(read, lines) == Failure(MissingColon(lines[i]))
    decreases |lines|
  {
    var init := lines[..|lines| - 1];
    if i == |lines| - 1 {
      FillAccepts(read, init);
    } else {
      FillRejectsFirst(read, init, i);
    }
  }

  lemma {:induction false} FillKeys(read: LineReader, lines: seq<string>, k: string)
    requires AllRead(read, lines)
    ensures Fill(read, lines).Success?
    ensures k in Fill(read, lines).value <==> exists i :: 0 <= i < |lines| && read(lines[i]).value.0 == k
    decreases |lines|
  {
    FillAccepts(read, lines);
    if lines != [] {
      var init := lines[..|lines| - 1];
      assert forall i :: 0 <= i < |init| ==> init[i] == lines[i];
      FillAccepts(read, init);
      FillKeys(read, init, k);
    }
  }

  lemma {:induction false} FillLastWins(read: LineReader, lines: seq<string>, i: nat)
    requires AllRead(read, lines) && i < |lines|
    requires forall j :: i < j < |lines| ==> read(lines[j]).value.0 != read(lines[i]).value.0
    ensures Fill(read, lines).Success?
    ensures read(lines[i]).value.0 in Fill(read, lines).value
    ensures Fill(read, lines).value[read(lines[i]).value.0] == read(lines[i]).value.1
    decreases |lines|
  {
    FillAccepts(read, lines);
    var init := lines[..|lines| - 1];
    if i < |lines| - 1 {
      assert forall j :: 0 <= j < |init| ==> init[j] == lines[j];
      FillLastWins(read, init, i);
    }
  }

  /** The configuration that the loop of `parse_input` builds from the header lines. */
  function HeaderConfig(lines: seq<string>): Result<Config, ParseError> {
    Fill(KeyValue, lines)
  }

  lemma WellFormedIsAllRead(lines: seq<string>)
    ensures WellFormedHeader(lines) <==> AllRead(KeyValue, lines)
  {
  }

  /** The header is accepted exactly when every line has a colon. */
  lemma HeaderConfigAccepts(lines: seq<string>)
    ensures HeaderConfig(lines).Success? <==> WellFormedHeader(lines)
  {
    FillAccepts(KeyValue, lines);
    WellFormedIsAllRead(lines);
  }

  /** A header is rejected on its first line without a colon, whatever follows. */
  lemma HeaderConfigRejectsFirst(lines: seq<string>, i: nat)
    requires i < |lines| && !HasColon(lines[i])
    requires forall j :: 0 <= j < i ==> HasColon(lines[j])
    ensures HeaderConfig(lines) == Failure(MissingColon(lines[i]))
  {
    FillRejectsFirst(KeyValue, lines, i);
  }

  /** Every key of the configuration comes from a header line, and every header line's key is in it. */
  lemma HeaderConfigKeys(lines: seq<string>, k: string)
    requires WellFormedHeader(lines)
    ensures HeaderConfig(lines).Success?
    ensures k in HeaderConfig(lines).value <==> exists i :: 0 <= i < |lines| && Key(lines[i]) == k
  {
    WellFormedIsAllRead(lines);
    FillKeys(KeyValue, lines, k);
  }

  /** A later line with the same key overwrites an earlier one: the value kept is that of the last. */
  lemma HeaderConfigLastWins(lines: seq<string>, i: nat)
    requires WellFormedHeader(lines) && i < |lines|
    requires forall j :: i < j < |lines| ==> Key(lines[j]) != Key(lines[i])
    ensures HeaderConfig(lines).Success?
    ensures Key(lines[i]) in HeaderConfig(lines).value
    ensures HeaderConfig(lines).value[Key(lines[i])] == Value(lines[i])
  {
    WellFormedIsAllRead(lines);
    FillLastWins(KeyValue, lines, i);
  }

  /**
   * `parse_input` without the `json.loads`: the configuration and the body text, or why
   * it raises.
   */
  function ParseInputSpec(stdin: string): Result<(Config, string), ParseError> {
    var parts := Split(stdin, "\n\n");
    if |parts| != 2 then Failure(PartCount(|parts|))
    else
      match HeaderConfig(Split(parts[0], "\n"))
      case Failure(e) => Failure(e)
      case Success(config) => Success((config, parts[1]))
  }

  /**
   * `parse_input`: split standard input at the empty line, then fill the configuration
   * line by line.
   */
  method ParseInput(stdin: string) returns (r: Result<(Config, string), ParseError>)
    ensures r == ParseInputSpec(stdin)
  {
    var parts := Split(stdin, "\n\n");
    if |parts| != 2 {
      return Failure(PartCount(|parts|));
    }
    var header, body := parts[0], parts[1];
    var config := ReadHeader(Split(header, "\n"));
    if config.Failure? {
      return Failure(config.error);
    }
    r := Success((config.value, body));
  }

  /** The `for` loop of `parse_input`: store each line's pair, raising on a line without a colon. */
  method ReadHeader(lines: seq<string>) returns (r: Result<Config, ParseError>)
    ensures r == HeaderConfig(lines)
  {
    var config: Config := map[];
    var i := 0;
    while i < |lines|
      invariant 0 <= i <= |lines|
      invariant Fill(KeyValue, lines[..i]) == Success(config)
    {
      var kv := KeyValue(lines[i]);
      if kv.None? {
        FillStops(KeyValue, lines, i);
        return Failure(MissingColon(lines[i]));
      }
      FillStep(KeyValue, lines, i, config);
      config := config[kv.value.0 := kv.value.1];
      i := i + 1;
    }
    assert lines[..i] == lines;
    r := Success(config);
  }

  lemma FillStops(read: LineReader, lines: seq<string>, i: nat)
    requires i < |lines| && Fill(read, lines[..i]).Success? && read(lines[i]).None?
    ensures Fill(read, lines) == Failure(MissingColon(lines[i]))
  {
    FillAccepts(read, lines[..i]);
    assert forall j :: 0 <= j < i ==> lines[..i][j] == lines[j];
    FillRejectsFirst(read, lines, i);
  }

  lemma FillStep(read: LineReader, lines: seq<string>, i: nat, config: Config)
    requires i < |lines| && Fill(read, lines[..i]) == Success(config) && read(lines[i]).Some?
    ensures Fill(read, lines[..i + 1]) == Success(config[read(lines[i]).value.0 := read(lines[i]).value.1])
  {
    assert lines[..i + 1][..i] == lines[..i];
  }

  /** Standard input is accepted exactly when it holds one empty-line separator and every header line has a colon. */
  lemma ParseInputAccepts(stdin: string)
    ensures ParseInputSpec(stdin).Success? <==>
              IndexOf(stdin, "\n\n").Some?
              && !Contains(stdin[IndexOf(stdin, "\n\n").value + 2..], "\n\n")
              && WellFormedHeader(Split(stdin[..IndexOf(stdin, "\n\n").value], "\n"))
    ensures ParseInputSpec(stdin).Success? ==>
              ParseInputSpec(stdin).value.1 == stdin[IndexOf(stdin, "\n\n").value + 2..]
  {
    SplitInTwo(stdin, "\n\n");
    var parts := Split(stdin, "\n\n");
    if |parts| == 2 {
      HeaderConfigAccepts(Split(parts[0], "\n"));
    }
  }

  lemma {:induction false} JoinedLinesHaveNoBlankLine(lines: seq<string>)
    requires |lines| > 0
    requires forall i :: 0 <= i < |lines| ==> lines[i] != [] && '\n' !in lines[i]
    ensures var h := Join(lines, "\n"); h != [] && h[0] != '\n' && h[|h| - 1] != '\n'
    ensures !Contains(Join(lines, "\n"), "\n\n")
    decreases |lines|
  {
    var h := Join(lines, "\n");
    var l := lines[0];
    if |lines| == 1 {
      forall j | 0 <= j <= |h| ensures !IsAt(h, "\n\n", j) {
        if j + 2 <= |h| {
          assert h[j] == l[j];
          assert h[j] != '\n';
        }
      }
    } else {
      var rest := Join(lines[1..], "\n");
      JoinedLinesHaveNoBlankLine(lines[1..]);
      assert h == l + "\n" + rest;
      forall j | 0 <= j <= |h| ensures !IsAt(h, "\n\n", j) {
        if j + 2 <= |h| {
          if j + 1 < |l| {
            assert h[j] == l[j];
          } else if j + 1 == |l| {
            assert h[j] == l[|l| - 1];
          } else if j == |l| {
            assert h[j + 1] == rest[0];
          } else {
            assert h[j..j + 2] == rest[j - |l| - 1..j - |l| + 1];
            assert !IsAt(rest, "\n\n", j - |l| - 1);
          }
        }
      }
      assert h[|h| - 1] == rest[|rest| - 1];
    }
  }

  /** In a header without blank lines and not ending in a newline, the first blank line is the separator. */
  lemma SeparatorAfterHeader(h: string, body: string)
    requires !Contains(h, "\n\n") && (h == [] || h[|h| - 1] != '\n')
    ensures IndexOf(h + "\n\n" + body, "\n\n") == Some(|h|)
  {
    var s := h + "\n\n" + body;
    forall j | 0 <= j < |h| ensures !IsAt(s, "\n\n", j) {
      if j + 2 <= |h| {
        assert s[j..j + 2] == h[j..j + 2];
        assert !IsAt(h, "\n\n", j);
      } else {
        assert s[j] == h[|h| - 1];
      }
    }
    FirstOccurrence(h, "\n\n", body);
  }

  /** Such a header, the separator and a body without blank lines split back into the header and the body. */
  lemma FrameRoundTrip(h: string, body: string)
    requires !Contains(h, "\n\n") && (h == [] || h[|h| - 1] != '\n')
    requires !Contains(body, "\n\n")
    ensures Split(h + "\n\n" + body, "\n\n") == [h, body]
  {
    var s := h + "\n\n" + body;
    SeparatorAfterHeader(h, body);
    assert s[..|h|] == h;
    assert s[|h| + 2..] == body;
    assert Split(body, "\n\n") == [body];
  }

  /**
   * Writing header lines and a body in the protocol and parsing the result gives back the
   * body and the configuration of those lines.
   */
  lemma ParseRoundTrip(lines: seq<string>, body: string)
    requires |lines| > 0 && WellFormedHeader(lines)
    requires forall i :: 0 <= i < |lines| ==> '\n' !in lines[i]
    requires !Contains(body, "\n\n")
    ensures HeaderConfig(lines).Success?
    ensures ParseInputSpec(Join(lines, "\n") + "\n\n" + body) == Success((HeaderConfig(lines).value, body))
  {
    HeaderConfigAccepts(lines);
    var h := Join(lines, "\n");
    JoinedLinesHaveNoBlankLine(lines);
    FrameRoundTrip(h, body);
    forall i | 0 <= i < |lines| ensures !Contains(lines[i], "\n") {
      ContainsChar(lines[i], '\n');
    }
    JoinThenSplit(lines, "\n");
  }
}
