/** The line-oriented annotator, `process_requirements_file`: every
    requirement line of a requirements file gets one comment line above it
    saying what the requirement resolved to on the reference date. */
module Annotator {
  import opened Wrappers
  import Text
  import Seqs
  import Versions
  import Dates
  import Releases
  import Resolver

  /** The marker every line the tool writes starts with. Long string constants
      here are written as concatenations of short literals, which the verifier
      reasons about character by character far more cheaply than one literal. */
  const Marker := "# requirements" + "_wayback_machine: "

  /** A parsed requirement line (`packaging.requirements.Requirement`): the
      project name, the text of its specifier set as `str(req.specifier)`
      prints it, and the specifier's acceptance test on versions. */
  datatype Requirement = Requirement(name: string, specifier: string, matches: Versions.Version -> bool)

  /** The exceptions that abandon one requirement line (the `except` at line 173). */
  datatype LineError =
    | InvalidRequirement(line: string)
    | FetchFailed(project: string)
    | BadMetadata(project: string, cause: Releases.MetadataError)

  /** The code the program calls but that is not part of this model: the
      requirement parser, the PyPI JSON API request (`None` when the request
      or the JSON decoding fails, or the answer has no `releases`), and
      `packaging.version.parse`. */
  datatype Env = Env(
    parseRequirement: string -> Option<Requirement>,
    fetchMetadata: string -> Option<seq<Releases.Entry>>,
    parseVersion: Releases.VersionParser)

  /** A stderr report `<file>:<lineno> - error: <e>` for one abandoned line. */
  datatype Diagnostic = Diagnostic(lineno: nat, error: LineError)

  /** One output line: an annotation the tool inserted, or an input line echoed. */
  datatype OutLine = Annotation(text: string) | Echo(text: string)

  /** What one run returns: the annotated file and the stderr reports. */
  datatype Report = Report(text: string, diagnostics: seq<Diagnostic>)

  // ---------------------------------------------------------------------
  // Reading the file

  /** Python's universal-newline translation in text mode: `\r\n` and a lone
      `\r` both become `\n`. */
  function TranslateNewlines(s: string): (r: string)
    ensures '\r' !in r
    ensures '\r' !in s ==> r == s
    ensures |r| <= |s|
    decreases |s|
  {
    if |s| == 0 then ""
    else if s[0] == '\r' then
      "\n" + TranslateNewlines(if |s| > 1 && s[1] == '\n' then s[2..] else s[1..])
    else
      assert '\r' !in s ==> '\r' !in s[1..];
      [s[0]] + TranslateNewlines(s[1..])
  }

  /** Any character other than a carriage return is read as itself. */
  lemma OtherCharKept(c: char, t: string)
    requires c != '\r'
    ensures TranslateNewlines([c] + t) == [c] + TranslateNewlines(t)
  {
    assert ([c] + t)[1..] == t;
  }

  /** A lone carriage return is read as a newline. */
  lemma {:induction false} CrIsLineBreak(a: string, b: string)
    requires '\r' !in a
    requires |b| == 0 || b[0] != '\n'
    ensures TranslateNewlines(a + "\r" + b) == a + "\n" + TranslateNewlines(b)
  {
    if |a| > 0 {
      var t := a[1..] + "\r" + b;
      assert a + "\r" + b == [a[0]] + t;
      CrIsLineBreak(a[1..], b);
      OtherCharKept(a[0], t);
      assert a == [a[0]] + a[1..];
    } else {
      var s := "\r" + b;
      assert a + "\r" + b == s;
      assert s[1..] == b;
    }
  }

  /** A carriage return followed by a newline is read as one newline. */
  lemma {:induction false} CrLfIsLineBreak(a: string, b: string)
    requires '\r' !in a
    ensures TranslateNewlines(a + "\r\n" + b) == a + "\n" + TranslateNewlines(b)
  {
    if |a| > 0 {
      var t := a[1..] + "\r\n" + b;
      assert a + "\r\n" + b == [a[0]] + t;
      CrLfIsLineBreak(a[1..], b);
      OtherCharKept(a[0], t);
      assert a == [a[0]] + a[1..];
    } else {
      var s := "\r\n" + b;
      assert a + "\r\n" + b == s;
      assert s[2..] == b;
    }
  }

  predicate EndsWithNewline(t: string) {
    |t| > 0 && t[|t| - 1] == '\n'
  }

  /** `list(fp)` on translated text, without the line terminators: the pieces
      between newlines, where a final newline does not start another line. */
  function SplitLines(t: string): (lines: seq<string>)
    ensures forall i :: 0 <= i < |lines| ==> '\n' !in lines[i]
    ensures t == Text.Join(lines, '\n') + (if EndsWithNewline(t) then "\n" else "")
    ensures |lines| == 0 <==> |t| == 0
  {
    if |t| == 0 then []
    else
      var parts := Text.Split(t, '\n');
      var n := |parts|;
      if parts[n - 1] == "" then
        if n == 1 then
          assert false; []
        else
          var init := parts[..n - 1];
          assert parts == init + [""];
          Text.JoinSnoc(init, "", '\n');
          init
      else
        if n > 1 then
          assert parts == parts[..n - 1] + [parts[n - 1]];
          Text.JoinSnoc(parts[..n - 1], parts[n - 1], '\n');
          assert parts[n - 1][|parts[n - 1]| - 1] != '\n';
          parts
        else
          assert parts[0][|parts[0]| - 1] != '\n';
          parts
  }

  /** Lines 141-145: the file's lines, each stripped of trailing whitespace. */
  function FileLines(fileText: string): (lines: seq<string>)
    ensures var raw := SplitLines(TranslateNewlines(fileText));
      && |lines| == |raw|
      && forall i :: 0 <= i < |lines| ==> lines[i] == Text.Rstrip(raw[i])
  {
    Seqs.Map(SplitLines(TranslateNewlines(fileText)), (line: string) => Text.Rstrip(line))
  }

  /** No line read from a file holds a line break or ends in whitespace. */
  lemma FileLinesAreClean(fileText: string)
    ensures var lines := FileLines(fileText);
      forall i :: 0 <= i < |lines| ==>
        && '\n' !in lines[i] && '\r' !in lines[i]
        && (|lines[i]| == 0 || !Text.IsSpace(lines[i][|lines[i]| - 1]))
  {
    var lines := FileLines(fileText);
    forall i | 0 <= i < |lines|
      ensures '\n' !in lines[i] && '\r' !in lines[i]
      ensures |lines[i]| == 0 || !Text.IsSpace(lines[i][|lines[i]| - 1])
    {
      FileLineIsClean(fileText, i);
    }
  }

  lemma FileLineIsClean(fileText: string, i: nat)
    requires i < |FileLines(fileText)|
    ensures var line := FileLines(fileText)[i];
      && '\n' !in line && '\r' !in line
      && (|line| == 0 || !Text.IsSpace(line[|line| - 1]))
  {
    var raw := SplitLines(TranslateNewlines(fileText));
    RawLinesHaveNoReturn(fileText, i);
    StripKeepsAbsent(raw[i]);
  }

  /** A character absent from a joined text is absent from every part. */
  lemma {:induction false} JoinedPartHasNo(parts: seq<string>, i: nat, c: char)
    requires i < |parts|
    requires c !in Text.Join(parts, '\n')
    ensures c !in parts[i]
  {
    if |parts| > 1 {
      var rest := Text.Join(parts[1..], '\n');
      assert Text.Join(parts, '\n') == parts[0] + ['\n'] + rest;
      if i > 0 {
        JoinedPartHasNo(parts[1..], i - 1, c);
      }
    }
  }

  lemma RawLinesHaveNoReturn(fileText: string, i: nat)
    requires i < |SplitLines(TranslateNewlines(fileText))|
    ensures '\r' !in SplitLines(TranslateNewlines(fileText))[i]
  {
    var t := TranslateNewlines(fileText);
    var raw := SplitLines(t);
    assert t == Text.Join(raw, '\n') + (if EndsWithNewline(t) then "\n" else "");
    JoinedPartHasNo(raw, i, '\r');
  }

  lemma StripKeepsAbsent(s: string)
    ensures forall c :: c in Text.Rstrip(s) ==> c in s
  {
    var r := Text.Rstrip(s);
    assert r == s[..|r|];
  }

  // ---------------------------------------------------------------------
  // Comment lines

  /** The pattern after its leading whitespace: empty, or `#` followed by
      characters other than a newline (`(#.*)?`, where `.` excludes `\n`). */
  predicate CommentTail(t: string) {
    |t| == 0 || (t[0] == '#' && '\n' !in t[1..])
  }

  /** `re.fullmatch(r"\s*(#.*)?", line)` by its definition: some whitespace
      prefix after which the rest is a comment tail. */
  predicate MatchesCommentPattern(line: string) {
    exists k :: 0 <= k <= |line| && (forall j :: 0 <= j < k ==> Text.IsSpace(line[j])) && CommentTail(line[k..])
  }

  /** Line 147: an empty or comment line, read left to right: leading
      whitespace, then the end of the line or a comment. */
  predicate IsCommentLine(line: string)
    decreases |line|
  {
    || |line| == 0
    || (line[0] == '#' && '\n' !in line[1..])
    || (Text.IsSpace(line[0]) && IsCommentLine(line[1..]))
  }

  /** The left-to-right reading agrees with the regular expression on every line. */
  lemma {:induction false} IsCommentLineMatchesPattern(line: string)
    ensures IsCommentLine(line) <==> MatchesCommentPattern(line)
  {
    if |line| > 0 {
      IsCommentLineMatchesPattern(line[1..]);
      if MatchesCommentPattern(line) {
        var k :| 0 <= k <= |line| && (forall j :: 0 <= j < k ==> Text.IsSpace(line[j])) && CommentTail(line[k..]);
        if k > 0 {
          assert line[1..][k - 1..] == line[k..];
          assert forall j :: 0 <= j < k - 1 ==> Text.IsSpace(line[1..][j]);
        } else {
          assert line[k..] == line;
        }
      }
      if IsCommentLine(line) {
        if Text.IsSpace(line[0]) && IsCommentLine(line[1..]) {
          var k :| 0 <= k <= |line[1..]| && (forall j :: 0 <= j < k ==> Text.IsSpace(line[1..][j])) && CommentTail(line[1..][k..]);
          assert line[k + 1..] == line[1..][k..];
          assert forall j :: 0 <= j < k + 1 ==> Text.IsSpace(line[j]);
        } else {
          assert line[0..] == line;
        }
      }
    } else {
      assert CommentTail(line[0..]);
    }
  }

  // ---------------------------------------------------------------------
  // One requirement line

  /** `get_release_date`, the reader applied to every artifact's upload time. */
  const ReleaseDate: Releases.DateReader := (t: string) => Dates.UploadDate(t)

  /** `query_project_releases`: fetch the project's metadata and reduce it to releases. */
  function QueryProjectReleases(env: Env, project: string): (r: Result<seq<Releases.Release>, LineError>)
    ensures env.fetchMetadata(project).None? ==> r == Err(FetchFailed(project))
    ensures env.fetchMetadata(project).Some? ==>
      var parsed := Releases.ParseProjectMetadata(env.fetchMetadata(project).value, env.parseVersion, ReleaseDate);
      && (r.Ok? <==> parsed.Ok?)
      && (r.Ok? ==> r.value == parsed.value)
      && (r.Err? ==> r == Err(BadMetadata(project, parsed.error)))
  {
    match env.fetchMetadata(project)
    case None => Err(FetchFailed(project))
    case Some(entries) =>
      match Releases.ParseProjectMetadata(entries, env.parseVersion, ReleaseDate)
      case Err(cause) => Err(BadMetadata(project, cause))
      case Ok(releases) => Ok(releases)
  }

  const WarningText := "warning - no " + "matching version " + "found for "
  const NonMonotonicText := " " + "(highest version " + "to date; latest " + "release to date is "

  /** What an annotation for `req` starts with when a version was found. */
  function VersionPrefix(req: Requirement): string {
    Marker + req.name + "<="
  }

  /** The part of a version annotation after the highest version: nothing
      when the highest version is also the latest, the latest otherwise. */
  function Tail(o: Resolver.Outcome): string
    requires !o.NoMatch?
  {
    if o.Resolved? then "" else NonMonotonicText + Versions.Format(o.latest) + ")"
  }

  /** The annotation for a resolved requirement (lines 160, 168 and 170). */
  function AnnotationText(req: Requirement, o: Resolver.Outcome): (a: string)
    ensures |a| > |Marker| && a[..|Marker|] == Marker
  {
    if o.NoMatch? then Marker + WarningText + req.name + req.specifier
    else VersionPrefix(req) + (Versions.Format(o.Highest()) + Tail(o))
  }

  /** An annotation records its outcome exactly: two different outcomes for
      the same requirement never print the same line. */
  lemma AnnotationRecordsOutcome(req: Requirement, o1: Resolver.Outcome, o2: Resolver.Outcome)
    requires AnnotationText(req, o1) == AnnotationText(req, o2)
    ensures o1 == o2
  {
    if o1.NoMatch? && !o2.NoMatch? {
      WarningIsNotVersionAnnotation(req, o2);
    } else if !o1.NoMatch? && o2.NoMatch? {
      WarningIsNotVersionAnnotation(req, o1);
    } else if !o1.NoMatch? {
      VersionAnnotationRecordsOutcome(req, o1, o2);
    }
  }

  lemma VersionAnnotationRecordsOutcome(req: Requirement, o1: Resolver.Outcome, o2: Resolver.Outcome)
    requires !o1.NoMatch? && !o2.NoMatch?
    requires AnnotationText(req, o1) == AnnotationText(req, o2)
    ensures o1 == o2
  {
    var f1 := Versions.Format(o1.Highest());
    var f2 := Versions.Format(o2.Highest());
    AnnotationSplits(req, o1);
    AnnotationSplits(req, o2);
    StripCommonPrefix(VersionPrefix(req), f1 + Tail(o1), f2 + Tail(o2));
    Versions.FormatChars(o1.Highest());
    Versions.FormatChars(o2.Highest());
    TailStartsWithSpace(o1);
    TailStartsWithSpace(o2);
    DelimitedPrefix(f1, Tail(o1), f2, Tail(o2));
    Versions.FormatInjective(o1.Highest(), o2.Highest());
    if o1.NonMonotonic? && o2.NonMonotonic? {
      LatestRecorded(o1, o2);
    }
  }

  /** The no-match warning for a requirement never reads like one of its
      version annotations: after the marker, the warning repeats the name
      behind a text without `<`, where a version annotation has `<=`. */
  lemma WarningIsNotVersionAnnotation(req: Requirement, o: Resolver.Outcome)
    requires !o.NoMatch?
    ensures AnnotationText(req, Resolver.NoMatch) != AnnotationText(req, o)
  {
    var r := Versions.Format(o.Highest()) + Tail(o);
    var u := "<=" + r;
    WarningHasNoAngle();
    NoSelfOverlap(req.name, u, WarningText, req.specifier);
    WarningSplits(req);
    AnnotationSplits(req, o);
    VersionPrefixSplits(req, r);
    if AnnotationText(req, Resolver.NoMatch) == AnnotationText(req, o) {
      StripCommonPrefix(Marker, WarningText + req.name + req.specifier, req.name + u);
    }
  }

  lemma WarningSplits(req: Requirement)
    ensures AnnotationText(req, Resolver.NoMatch) == Marker + (WarningText + req.name + req.specifier)
  {
  }

  lemma VersionPrefixSplits(req: Requirement, r: string)
    ensures VersionPrefix(req) + r == Marker + (req.name + ("<=" + r))
  {
  }

  /** A name followed by a text starting with `<` is never the same name
      behind a non-empty prefix that has no `<`. */
  lemma {:induction false} NoSelfOverlap(n: string, u: string, w: string, s: string)
    requires |w| > 0 && '<' !in w
    requires |u| > 0 && u[0] == '<'
    ensures n + u != w + n + s
    decreases |n|
  {
    if |n| < |w| {
      assert (n + u)[|n|] == '<';
      assert (w + n + s)[|n|] == w[|n|];
    } else if n + u == w + n + s {
      var rest := n[|w|..];
      assert n[..|w|] == (w + n + s)[..|w|] == w;
      assert n == w + rest;
      assert rest + u == (n + u)[|w|..] == (w + n + s)[|w|..] == w + rest + s;
      NoSelfOverlap(rest, u, w, s);
    }
  }

  lemma WarningHasNoAngle()
    ensures |WarningText| > 0 && '<' !in WarningText
  {
    var w1, w2, w3 := "warning - no ", "matching version ", "found for ";
    assert forall k | 0 <= k < |w1| :: w1[k] != '<';
    assert forall k | 0 <= k < |w2| :: w2[k] != '<';
    assert forall k | 0 <= k < |w3| :: w3[k] != '<';
    assert WarningText == w1 + w2 + w3;
  }

  lemma AnnotationSplits(req: Requirement, o: Resolver.Outcome)
    requires !o.NoMatch?
    ensures AnnotationText(req, o) == VersionPrefix(req) + (Versions.Format(o.Highest()) + Tail(o))
  {
  }

  lemma StripCommonPrefix(p: string, r1: string, r2: string)
    requires p + r1 == p + r2
    ensures r1 == r2
  {
    assert r1 == (p + r1)[|p|..];
    assert r2 == (p + r2)[|p|..];
  }

  lemma TailStartsWithSpace(o: Resolver.Outcome)
    requires !o.NoMatch?
    ensures |Tail(o)| == 0 || Tail(o)[0] == ' '
  {
    if o.NonMonotonic? {
      var rest := Versions.Format(o.latest) + ")";
      assert NonMonotonicText[0] == ' ';
      assert Tail(o) == NonMonotonicText + rest;
      assert (NonMonotonicText + rest)[0] == NonMonotonicText[0];
    }
  }

  lemma LatestRecorded(o1: Resolver.Outcome, o2: Resolver.Outcome)
    requires o1.NonMonotonic? && o2.NonMonotonic?
    requires Tail(o1) == Tail(o2)
    ensures o1.latest == o2.latest
  {
    var g1 := Versions.Format(o1.latest);
    var g2 := Versions.Format(o2.latest);
    var t := NonMonotonicText;
    assert Tail(o1) == t + (g1 + ")");
    assert Tail(o2) == t + (g2 + ")");
    StripCommonPrefix(t, g1 + ")", g2 + ")");
    assert g1 == (g1 + ")")[..|g1|];
    assert g2 == (g2 + ")")[..|g2|];
    Versions.FormatInjective(o1.latest, o2.latest);
  }

  /** The position of the first character that is neither a digit nor a dot. */
  function DelimiterIndex(c: string): (k: nat)
    ensures k <= |c|
  {
    if |c| == 0 || !(Text.IsDigit(c[0]) || c[0] == '.') then 0 else 1 + DelimiterIndex(c[1..])
  }

  lemma {:induction false} DelimiterIndexOf(a: string, x: string)
    requires Versions.DigitsAndDots(a)
    requires |x| == 0 || x[0] == ' '
    ensures DelimiterIndex(a + x) == |a|
  {
    if |a| == 0 {
      assert a + x == x;
    } else {
      assert (a + x)[0] == a[0];
      assert (a + x)[1..] == a[1..] + x;
      assert Versions.DigitsAndDots(a[1..]) by {
        assert forall k :: 0 <= k < |a[1..]| ==> a[1..][k] == a[k + 1];
      }
      DelimiterIndexOf(a[1..], x);
    }
  }

  /** A text of digits and dots followed by nothing or by a space can be
      split in only one way. */
  lemma DelimitedPrefix(a: string, x: string, b: string, y: string)
    requires Versions.DigitsAndDots(a) && Versions.DigitsAndDots(b)
    requires |x| == 0 || x[0] == ' '
    requires |y| == 0 || y[0] == ' '
    requires a + x == b + y
    ensures a == b && x == y
  {
    DelimiterIndexOf(a, x);
    DelimiterIndexOf(b, y);
    assert a == (a + x)[..|a|];
    assert b == (b + y)[..|b|];
    assert x == (a + x)[|a|..];
    assert y == (b + y)[|b|..];
  }

  /** Lines 152-171, the `try` block: the annotation to insert above a
      requirement line, or the exception that abandons it. */
  function AnnotateRequirement(env: Env, referenceDate: Dates.Date, line: string): (r: Result<string, LineError>)
    ensures r.Ok? <==> && env.parseRequirement(line).Some?
                       && QueryProjectReleases(env, env.parseRequirement(line).value.name).Ok?
    ensures r.Ok? ==>
      var req := env.parseRequirement(line).value;
      r.value == AnnotationText(req, Resolver.Resolve(QueryProjectReleases(env, req.name).value, req.matches, referenceDate))
    ensures env.parseRequirement(line).None? ==> r == Err(InvalidRequirement(line))
    ensures env.parseRequirement(line).Some? && QueryProjectReleases(env, env.parseRequirement(line).value.name).Err? ==>
      r == Err(QueryProjectReleases(env, env.parseRequirement(line).value.name).error)
  {
    match env.parseRequirement(line)
    case None => Err(InvalidRequirement(line))
    case Some(req) =>
      match QueryProjectReleases(env, req.name)
      case Err(e) => Err(e)
      case Ok(releases) => Ok(AnnotationText(req, Resolver.Resolve(releases, req.matches, referenceDate)))
  }

  /** An annotation reads back as the resolution of its requirement: it is the
      warning exactly when no release of the project qualifies, and otherwise
      it names the highest qualifying version and the first latest upload,
      showing the latter exactly when a higher version outranks it. */
  lemma AnnotationReportsResolution(env: Env, referenceDate: Dates.Date, line: string)
    requires AnnotateRequirement(env, referenceDate, line).Ok?
    ensures var req := env.parseRequirement(line).value;
      var rs := QueryProjectReleases(env, req.name).value;
      var q := Resolver.QualifyingReleases(rs, req.matches, referenceDate);
      var a := AnnotateRequirement(env, referenceDate, line).value;
      && (a == AnnotationText(req, Resolver.NoMatch) <==>
            forall x :: x in rs ==> !Resolver.Qualifies(x, req.matches, referenceDate))
      && (forall o :: a == AnnotationText(req, o) && !o.NoMatch? ==>
            && Resolver.IsHighest(o.Highest(), q)
            && Resolver.IsFirstLatestUpload(o.Latest(), q)
            && (o.NonMonotonic? <==> Resolver.Outranked(o.Latest(), q)))
  {
    var req := env.parseRequirement(line).value;
    var rs := QueryProjectReleases(env, req.name).value;
    var a := AnnotateRequirement(env, referenceDate, line).value;
    var resolved := Resolver.Resolve(rs, req.matches, referenceDate);
    if a == AnnotationText(req, Resolver.NoMatch) {
      AnnotationRecordsOutcome(req, Resolver.NoMatch, resolved);
    }
    forall o | a == AnnotationText(req, o) && !o.NoMatch?
      ensures o == resolved
    {
      AnnotationRecordsOutcome(req, o, resolved);
    }
  }

  /** The `try` block as a function of the line alone. */
  type LineAnnotator = string -> Result<string, LineError>

  function Annotate(env: Env, referenceDate: Dates.Date): LineAnnotator {
    (line: string) => AnnotateRequirement(env, referenceDate, line)
  }

  // ---------------------------------------------------------------------
  // The whole file

  /** The output lines for one input line: a comment line is echoed alone; a
      requirement line is echoed under its annotation, or alone when its
      processing raised. */
  function LineOutput(annotate: LineAnnotator, line: string): (out: seq<OutLine>)
    ensures |out| == 1 || (|out| == 2 && out[0].Annotation?)
    ensures out[|out| - 1] == Echo(line)
    ensures |out| == 2 <==> !IsCommentLine(line) && annotate(line).Ok?
    ensures |out| == 2 ==> annotate(line) == Ok(out[0].text)
  {
    if IsCommentLine(line) then [Echo(line)]
    else
      match annotate(line)
      case Ok(a) => [Annotation(a), Echo(line)]
      case Err(_) => [Echo(line)]
  }

  /** The echoed input lines of an output, in order. */
  function Echoes(out: seq<OutLine>): (lines: seq<string>)
    ensures |lines| <= |out|
  {
    if |out| == 0 then []
    else (if out[0].Echo? then [out[0].text] else []) + Echoes(out[1..])
  }

  lemma {:induction false} EchoesAppend(a: seq<OutLine>, b: seq<OutLine>)
    ensures Echoes(a + b) == Echoes(a) + Echoes(b)
  {
    if |a| == 0 {
      assert a + b == b;
    } else {
      var h := if a[0].Echo? then [a[0].text] else [];
      assert (a + b)[0] == a[0];
      assert (a + b)[1..] == a[1..] + b;
      EchoesAppend(a[1..], b);
      calc {
        Echoes(a + b);
        h + Echoes(a[1..] + b);
        h + (Echoes(a[1..]) + Echoes(b));
        (h + Echoes(a[1..])) + Echoes(b);
        Echoes(a) + Echoes(b);
      }
    }
  }

  /** An echoed line is one of the echoes. */
  lemma {:induction false} EchoInEchoes(out: seq<OutLine>, i: nat)
    requires i < |out| && out[i].Echo?
    ensures out[i].text in Echoes(out)
  {
    if i > 0 {
      EchoInEchoes(out[1..], i - 1);
      assert out[1..][i - 1] == out[i];
    }
  }

  /** Every annotation sits directly above the echo of the requirement line
      it was computed for, and every requirement line whose processing
      succeeded has its annotation directly above it. */
  ghost predicate AnnotationsPlaced(annotate: LineAnnotator, out: seq<OutLine>) {
    && (|out| > 0 ==> out[|out| - 1].Echo?)
    && (forall i, j :: 0 <= i < j < |out| && j == i + 1 && out[i].Annotation? ==>
          out[j].Echo? && !IsCommentLine(out[j].text) && annotate(out[j].text) == Ok(out[i].text))
    && (forall i, j :: 0 <= i < j < |out| && j == i + 1 && out[j].Echo? && !IsCommentLine(out[j].text)
                       && annotate(out[j].text).Ok? ==>
          out[i] == Annotation(annotate(out[j].text).value))
    && (|out| > 0 && out[0].Echo? ==> IsCommentLine(out[0].text) || annotate(out[0].text).Err?)
  }

  /** Lines 144-175: the output for the input lines, in order. */
  function Output(annotate: LineAnnotator, lines: seq<string>): (out: seq<OutLine>)
    ensures Echoes(out) == lines
    ensures |lines| <= |out| <= 2 * |lines|
  {
    if |lines| == 0 then []
    else
      var head := LineOutput(annotate, lines[0]);
      var rest := Output(annotate, lines[1..]);
      EchoesAppend(head, rest);
      assert Echoes(head) == [lines[0]];
      assert lines == [lines[0]] + lines[1..];
      head + rest
  }

  /** Each annotation of the output sits where it belongs. */
  lemma {:induction false} OutputPlaced(annotate: LineAnnotator, lines: seq<string>)
    ensures AnnotationsPlaced(annotate, Output(annotate, lines))
  {
    if |lines| > 0 {
      OutputPlaced(annotate, lines[1..]);
      PlacedAppend(annotate, lines[0], Output(annotate, lines[1..]));
    }
  }

  /** In an annotated file, every annotation is the resolution text of the
      requirement echoed directly below it. */
  lemma OutputAnnotationsResolve(env: Env, referenceDate: Dates.Date, lines: seq<string>)
    ensures var out := Output(Annotate(env, referenceDate), lines);
      forall i, j :: 0 <= i < j < |out| && j == i + 1 && out[i].Annotation? ==>
        && out[j].Echo?
        && env.parseRequirement(out[j].text).Some?
        && var req := env.parseRequirement(out[j].text).value;
           && QueryProjectReleases(env, req.name).Ok?
           && out[i].text == AnnotationText(req,
                Resolver.Resolve(QueryProjectReleases(env, req.name).value, req.matches, referenceDate))
  {
    var annotate := Annotate(env, referenceDate);
    var out := Output(annotate, lines);
    OutputPlaced(annotate, lines);
    forall i, j | 0 <= i < j < |out| && j == i + 1 && out[i].Annotation?
      ensures AnnotateRequirement(env, referenceDate, out[j].text) == Ok(out[i].text)
    {
      assert annotate(out[j].text) == Ok(out[i].text);
    }
  }

  lemma PlacedAppend(annotate: LineAnnotator, line: string, rest: seq<OutLine>)
    requires AnnotationsPlaced(annotate, rest)
    ensures AnnotationsPlaced(annotate, LineOutput(annotate, line) + rest)
  {
    var head := LineOutput(annotate, line);
    var out := head + rest;
    forall i, j | 0 <= i < j < |out| && j == i + 1 && out[i].Annotation?
      ensures out[j].Echo? && !IsCommentLine(out[j].text) && annotate(out[j].text) == Ok(out[i].text)
    {
      if i >= |head| {
        assert out[i] == rest[i - |head|];
        assert out[j] == rest[j - |head|];
      }
    }
    forall i, j | 0 <= i < j < |out| && j == i + 1 && out[j].Echo? && !IsCommentLine(out[j].text)
                  && annotate(out[j].text).Ok?
      ensures out[i] == Annotation(annotate(out[j].text).value)
    {
      if j > |head| {
        assert out[i] == rest[i - |head|];
        assert out[j] == rest[j - |head|];
      }
    }
  }

  /** The output of a file is the outputs of its parts, one after the other:
      no line's processing affects another line. */
  lemma {:induction false} OutputAppend(annotate: LineAnnotator, a: seq<string>, b: seq<string>)
    ensures Output(annotate, a + b) == Output(annotate, a) + Output(annotate, b)
  {
    if |a| == 0 {
      assert a + b == b;
    } else {
      var head := LineOutput(annotate, a[0]);
      assert (a + b)[0] == a[0];
      assert (a + b)[1..] == a[1..] + b;
      OutputAppend(annotate, a[1..], b);
      calc {
        Output(annotate, a + b);
        head + Output(annotate, a[1..] + b);
        head + (Output(annotate, a[1..]) + Output(annotate, b));
        (head + Output(annotate, a[1..])) + Output(annotate, b);
        Output(annotate, a) + Output(annotate, b);
      }
    }
  }

  /** So each line contributes exactly its own output, at its place. */
  lemma OutputOfLine(annotate: LineAnnotator, before: seq<string>, line: string, after: seq<string>)
    ensures Output(annotate, before + [line] + after)
         == Output(annotate, before) + LineOutput(annotate, line) + Output(annotate, after)
  {
    OutputAppend(annotate, before + [line], after);
    OutputAppend(annotate, before, [line]);
    OutputSingleton(annotate, line);
  }

  lemma OutputSingleton(annotate: LineAnnotator, line: string)
    ensures Output(annotate, [line]) == LineOutput(annotate, line)
  {
    assert [line][1..] == [];
  }

  /** A requirement line whose processing raised. */
  predicate Fails(annotate: LineAnnotator, line: string) {
    !IsCommentLine(line) && annotate(line).Err?
  }

  /** `d` reports line `d.lineno` of `lines` (numbered from `first`) with the
      error it was abandoned for. */
  predicate Reports(annotate: LineAnnotator, lines: seq<string>, first: nat, d: Diagnostic) {
    && first <= d.lineno < first + |lines|
    && Fails(annotate, lines[d.lineno - first])
    && annotate(lines[d.lineno - first]) == Err(d.error)
  }

  /** Lines 173-174: one report per abandoned line, numbered from `first`. */
  function Diagnostics(annotate: LineAnnotator, lines: seq<string>, first: nat): (ds: seq<Diagnostic>)
    ensures forall k :: 0 <= k < |ds| ==> Reports(annotate, lines, first, ds[k])
    ensures forall k, l :: 0 <= k < l < |ds| ==> ds[k].lineno < ds[l].lineno
  {
    if |lines| == 0 then []
    else
      var rest := Diagnostics(annotate, lines[1..], first + 1);
      assert forall d :: Reports(annotate, lines[1..], first + 1, d) ==> Reports(annotate, lines, first, d);
      if Fails(annotate, lines[0]) then
        var ds := [Diagnostic(first, annotate(lines[0]).error)] + rest;
        assert forall k :: 1 <= k < |ds| ==> ds[k] == rest[k - 1];
        ds
      else
        rest
  }

  /** Every abandoned line is reported, with its own number and error. */
  lemma {:induction false} DiagnosticsComplete(annotate: LineAnnotator, lines: seq<string>, first: nat, i: nat)
    requires i < |lines| && Fails(annotate, lines[i])
    ensures Diagnostic(first + i, annotate(lines[i]).error) in Diagnostics(annotate, lines, first)
  {
    var ds := Diagnostics(annotate, lines, first);
    if i == 0 {
      assert ds[0] == Diagnostic(first, annotate(lines[0]).error);
    } else {
      DiagnosticsComplete(annotate, lines[1..], first + 1, i - 1);
      assert lines[1..][i - 1] == lines[i];
      var rest := Diagnostics(annotate, lines[1..], first + 1);
      assert ds == rest || ds == [ds[0]] + rest;
    }
  }

  /** Line 139: the first output line. */
  function Header(referenceDate: Dates.Date): string {
    Marker + "reference date " + Dates.IsoFormat(referenceDate)
  }

  /** The text of each output line. */
  function Texts(out: seq<OutLine>): (ts: seq<string>)
    ensures |ts| == |out| && forall i :: 0 <= i < |out| ==> ts[i] == out[i].text
  {
    if |out| == 0 then [] else [out[0].text] + Texts(out[1..])
  }

  /** Line 177: the header and the output lines joined by newlines. */
  function Render(referenceDate: Dates.Date, out: seq<OutLine>): (text: string)
    ensures |Header(referenceDate)| <= |text| && text[..|Header(referenceDate)|] == Header(referenceDate)
  {
    JoinCons(Header(referenceDate), Texts(out));
    Text.Join([Header(referenceDate)] + Texts(out), '\n')
  }

  lemma JoinCons(h: string, ts: seq<string>)
    ensures Text.Join([h] + ts, '\n') == h + (if |ts| == 0 then "" else "\n" + Text.Join(ts, '\n'))
  {
    if |ts| > 0 {
      assert ([h] + ts)[1..] == ts;
    }
  }

  /** `process_requirements_file` (lines 135-177) on the file's text: the
      annotated file and the reports for the abandoned lines, numbered from 1. */
  function ProcessRequirementsFile(env: Env, referenceDate: Dates.Date, fileText: string): (r: Report)
    ensures |Header(referenceDate)| <= |r.text| && r.text[..|Header(referenceDate)|] == Header(referenceDate)
    ensures var lines := FileLines(fileText);
      forall k :: 0 <= k < |r.diagnostics| ==>
        1 <= r.diagnostics[k].lineno <= |lines|
        && Fails(Annotate(env, referenceDate), lines[r.diagnostics[k].lineno - 1])
  {
    var lines := FileLines(fileText);
    var annotate := Annotate(env, referenceDate);
    Report(Render(referenceDate, Output(annotate, lines)), Diagnostics(annotate, lines, 1))
  }

  // ---------------------------------------------------------------------
  // Reading the output back

  /** The requirement parser never puts a newline into a name or a specifier text. */
  ghost predicate NewlineFreeRequirements(env: Env) {
    forall line :: env.parseRequirement(line).Some? ==>
      '\n' !in env.parseRequirement(line).value.name && '\n' !in env.parseRequirement(line).value.specifier
  }

  /** Every annotation the annotator produces is one comment line. */
  ghost predicate WritesCommentLines(annotate: LineAnnotator) {
    forall line :: annotate(line).Ok? ==>
      var a := annotate(line).value; |a| > 0 && a[0] == '#' && '\n' !in a
  }

  lemma AnnotateWritesCommentLines(env: Env, referenceDate: Dates.Date)
    requires NewlineFreeRequirements(env)
    ensures WritesCommentLines(Annotate(env, referenceDate))
  {
    var annotate := Annotate(env, referenceDate);
    forall line | annotate(line).Ok?
      ensures var a := annotate(line).value; |a| > 0 && a[0] == '#' && '\n' !in a
    {
      var req := env.parseRequirement(line).value;
      var o :| AnnotateRequirement(env, referenceDate, line).value == AnnotationText(req, o);
      AnnotationHasNoNewline(req, o);
      assert AnnotationText(req, o)[..|Marker|] == Marker;
    }
  }

  lemma AnnotationHasNoNewline(req: Requirement, o: Resolver.Outcome)
    requires '\n' !in req.name && '\n' !in req.specifier
    ensures '\n' !in AnnotationText(req, o)
  {
    ConstantsHaveNoNewline();
    if o.NoMatch? {
      assert AnnotationText(req, o) == Marker + WarningText + req.name + req.specifier;
    } else {
      AnnotationSplits(req, o);
      FormatHasNoNewline(o.Highest());
      if o.NonMonotonic? {
        FormatHasNoNewline(o.latest);
        assert Tail(o) == NonMonotonicText + Versions.Format(o.latest) + ")";
      }
    }
  }

  lemma ConstantsHaveNoNewline()
    ensures '\n' !in Marker && '\n' !in WarningText && '\n' !in NonMonotonicText && '\n' !in "<="
  {
    var m1, m2 := "# requirements", "_wayback_machine: ";
    assert forall k | 0 <= k < |m1| :: m1[k] != '\n';
    assert forall k | 0 <= k < |m2| :: m2[k] != '\n';
    assert Marker == m1 + m2;
    var w1, w2, w3 := "warning - no ", "matching version ", "found for ";
    assert forall k | 0 <= k < |w1| :: w1[k] != '\n';
    assert forall k | 0 <= k < |w2| :: w2[k] != '\n';
    assert forall k | 0 <= k < |w3| :: w3[k] != '\n';
    assert WarningText == w1 + w2 + w3;
    var n1, n2, n3 := "(highest version ", "to date; latest ", "release to date is ";
    assert forall k | 0 <= k < |n1| :: n1[k] != '\n';
    assert forall k | 0 <= k < |n2| :: n2[k] != '\n';
    assert forall k | 0 <= k < |n3| :: n3[k] != '\n';
    assert NonMonotonicText == " " + n1 + n2 + n3;
  }

  lemma FormatHasNoNewline(v: Versions.Version)
    ensures '\n' !in Versions.Format(v)
  {
    Versions.FormatChars(v);
    assert !Text.IsDigit('\n');
  }

  lemma HeaderHasNoNewline(referenceDate: Dates.Date)
    ensures '\n' !in Header(referenceDate)
  {
    ConstantsHaveNoNewline();
    var r := "reference date ";
    assert forall k | 0 <= k < |r| :: r[k] != '\n';
    assert !Text.IsDigit('\n');
    assert '\n' !in Dates.IsoFormat(referenceDate);
    assert Header(referenceDate) == Marker + r + Dates.IsoFormat(referenceDate);
  }

  /** Reading the annotated file back line by line gives the header, then
      the output lines in order. */
  lemma RenderedLines(env: Env, referenceDate: Dates.Date, fileText: string)
    requires NewlineFreeRequirements(env)
    ensures var out := Output(Annotate(env, referenceDate), FileLines(fileText));
      Text.Split(ProcessRequirementsFile(env, referenceDate, fileText).text, '\n') == [Header(referenceDate)] + Texts(out)
  {
    var lines := FileLines(fileText);
    var annotate := Annotate(env, referenceDate);
    var out := Output(annotate, lines);
    var all := [Header(referenceDate)] + Texts(out);
    FileLinesAreClean(fileText);
    AnnotateWritesCommentLines(env, referenceDate);
    HeaderHasNoNewline(referenceDate);
    OutputHasNoNewline(annotate, lines);
    forall k | 0 <= k < |all|
      ensures '\n' !in all[k]
    {
      if k > 0 {
        assert all[k] == out[k - 1].text;
      }
    }
    Text.SplitJoin(all, '\n');
  }

  /** Newline-free input lines and annotations give newline-free output lines. */
  lemma OutputHasNoNewline(annotate: LineAnnotator, lines: seq<string>)
    requires WritesCommentLines(annotate)
    requires forall i :: 0 <= i < |lines| ==> '\n' !in lines[i]
    ensures forall k :: 0 <= k < |Output(annotate, lines)| ==> '\n' !in Output(annotate, lines)[k].text
  {
    var out := Output(annotate, lines);
    OutputPlaced(annotate, lines);
    forall k | 0 <= k < |out|
      ensures '\n' !in out[k].text
    {
      if out[k].Annotation? {
        assert annotate(out[k + 1].text) == Ok(out[k].text);
      } else {
        EchoInEchoes(out, k);
      }
    }
  }

  /** Re-annotating an annotated file: every annotation is itself a comment
      line, so a second run echoes it unchanged, and inserts a fresh
      annotation above each requirement line. The old annotations stay. */
  lemma AnnotationsAreComments(annotate: LineAnnotator, lines: seq<string>, annotate2: LineAnnotator, j: nat)
    requires WritesCommentLines(annotate)
    requires j < |Output(annotate, lines)| && Output(annotate, lines)[j].Annotation?
    ensures var a := Output(annotate, lines)[j].text;
      IsCommentLine(a) && LineOutput(annotate2, a) == [Echo(a)]
  {
    AnnotationAbove(annotate, lines, j);
  }

  /** Every annotation in the output is what `annotate` gave for the next line. */
  lemma AnnotationAbove(annotate: LineAnnotator, lines: seq<string>, j: nat)
    requires j < |Output(annotate, lines)| && Output(annotate, lines)[j].Annotation?
    ensures j + 1 < |Output(annotate, lines)|
    ensures annotate(Output(annotate, lines)[j + 1].text) == Ok(Output(annotate, lines)[j].text)
  {
    var out := Output(annotate, lines);
    OutputPlaced(annotate, lines);
    assert annotate(out[j + 1].text) == Ok(out[j].text);
  }

  /** The annotation the project's own example shows for a back-ported
      release: `lpips<=0.1.3`, whose latest release to date was 0.1.2. */
  lemma BackportAnnotation(matches: Versions.Version -> bool)
    ensures AnnotationText(Requirement("lpips", "", matches),
                           Resolver.NonMonotonic(Versions.Version([0, 1, 3]), Versions.Version([0, 1, 2])))
         == "# requirements" + "_wayback_machine: " + "lpips" + "<="
            + ("0.1.3" + (" " + "(highest version " + "to date; latest " + "release to date is " + "0.1.2" + ")"))
  {
    Versions.FormatExample();
  }
}
