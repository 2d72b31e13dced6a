# Requirements Wayback Machine, modelled in Dafny

`requirements_wayback_machine.py` annotates a pip `requirements.txt` file with
what each requirement would have resolved to on a past reference date. For
every requirement line it asks the package index for the project's releases,
keeps those uploaded on or before the reference date, applies the
requirement's version specifier, and inserts a comment line above the
requirement naming the highest matching version. When the highest matching
version is not the one uploaded last, the annotation names that latest
release too: the version order and the upload order disagree.

This project models the core of that script:

- the release-metadata reduction (`get_release_date`,
  `ProjectRelease.parse_project_metadata`): one release per version that has
  artifacts, dated by its earliest upload;
- the temporal resolver (the body of the loop in `process_requirements_file`
  from the cutoff to the choice of annotation);
- the line annotator (`process_requirements_file`): the header, comment
  lines passed through, one annotation above each requirement line, and
  per-line error isolation.

Modules, one per concern:

| file | module | models |
|---|---|---|
| `wrappers.dfy` | `Wrappers` | `Option` and `Result` |
| `text.dfy` | `Text` | decimal digits, zero padding, `split`/`join`, `str.isspace`, `rstrip` |
| `seqs.dfy` | `Seqs` | the list comprehensions `[x for x in xs if p(x)]` and `[f(x) for x in xs]` |
| `versions.dfy` | `Versions` | versions as release segments, their total order, `max`, `str(version)` |
| `dates.dfy` | `Dates` | calendar dates, `date.fromisoformat`, `isoformat`, `min`, `get_release_date` |
| `releases.dfy` | `Releases` | `ProjectRelease.parse_project_metadata` |
| `resolver.dfy` | `Resolver` | the resolution of one requirement on the reference date |
| `annotator.dfy` | `Annotator` | `process_requirements_file` |

Code the script calls but whose source is not part of this model is passed
in as parameters (`Annotator.Env`):
- the requirement parser (`packaging.requirements.Requirement`), which yields
  a name, the specifier's text and its acceptance test `matches`;
- the index request (`requests.get(...).json()`);
- `packaging.version.parse`.

Each may fail (`None`). The specifier's `filter` is modelled as keeping, in
order, the versions `matches` accepts.

Points where the code's behaviour is easy to misread:
- **Latest-upload ties.** When several matching releases share the latest
  upload date, `max(..., key=...)` returns the first one in the index's
  order, and so does `Resolver.LatestIndex`.
- **Version parsing.** The code calls `packaging.version.parse`, which
  raises on invalid strings in current `packaging`. The model lets the
  parser fail, and a failure abandons the requirement line.
- **Bad timestamps.** A timestamp whose first ten characters are not a
  valid ISO date makes `date.fromisoformat` raise, so the reduction fails
  on it and the line is abandoned
  (`Releases.ParseProjectMetadataFirstError`).
- **Annotating a file twice.** The earlier annotations are comment lines,
  so they are echoed unchanged. A fresh annotation is still inserted above
  every requirement line, and the old header stays as a comment
  (`Annotator.AnnotationsAreComments`).

## Model

| member | source | states |
|---|---|---|
| Dates.UploadDate | requirements_wayback_machine.py:91-92 | an upload time is read as a valid calendar date whose ISO form is exactly the first ten characters of the timestamp; shorter or malformed timestamps give no date |
| Dates.ParseIsoFormat | requirements_wayback_machine.py:92 | parsing the ISO form of any valid date gives that date back |
| Dates.ParseIsoDateIff | requirements_wayback_machine.py:92 | `fromisoformat` accepts a string exactly when it is the ISO form of some valid date |
| Dates.Min | requirements_wayback_machine.py:115 | `min` of a non-empty list of dates is one of them and is no later than any of them |
| Releases.FirstUploadTimeError | requirements_wayback_machine.py:115 | there is an error exactly when some artifact's timestamp does not parse, and the error names the first such timestamp: every earlier one parses |
| Releases.EarliestUpload | requirements_wayback_machine.py:115-117 | the earliest upload succeeds exactly when every timestamp parses; it is absent exactly when there are no artifacts; otherwise it is one of the artifact dates and no later than any of them |
| Releases.ParseProjectMetadata | requirements_wayback_machine.py:111-124 | the reduction succeeds exactly when every version string and every timestamp parses, and yields no more releases than there are versions |
| Releases.ParseProjectMetadataReleases | requirements_wayback_machine.py:113-122 | on success, the releases correspond one to one and in order to the versions that have artifacts; each has the parsed version and the earliest artifact date |
| Releases.ParseProjectMetadataFirstError | requirements_wayback_machine.py:113-115 | on failure, the error is the one raised by the first version, in key order, that cannot be reduced; all versions before it reduce |
| Versions.LeIsTotalOrder | requirements_wayback_machine.py:164 | the version order is reflexive, antisymmetric, transitive and total |
| Versions.Max | requirements_wayback_machine.py:164 | `max` of a non-empty list of versions is one of them and is at least every one of them |
| Versions.FormatInjective | requirements_wayback_machine.py:168-170 | two versions that print alike are the same version |
| Versions.FormatExample | requirements_wayback_machine.py:168 | `0.1.3` and `0.1.2` print as `0.1.3` and `0.1.2` |
| Seqs.Filter | requirements_wayback_machine.py:155 | a comprehension with a condition keeps exactly the elements that pass, in their order |
| Seqs.FilterMultiplicity | requirements_wayback_machine.py:155 | a comprehension with a condition keeps every occurrence of a passing element and none of a failing one |
| Resolver.ReleasesToDate | requirements_wayback_machine.py:155 | the cutoff keeps exactly the releases uploaded on or before the reference date, in order |
| Resolver.MatchingVersions | requirements_wayback_machine.py:156 | every matching version is accepted by the specifier and is the version of an available release; every accepted available version is among them |
| Resolver.MatchingReleasesQualify | requirements_wayback_machine.py:155-157 | the matching releases are exactly the releases that are both available on the reference date and accepted by the specifier, in order |
| Resolver.MatchingVersionsOfReleases | requirements_wayback_machine.py:156-157 | the matching versions are the versions of the matching releases, position by position, so one list is empty exactly when the other is |
| Resolver.LatestIndex | requirements_wayback_machine.py:165 | `max(..., key=upload_date)` picks a release uploaded no earlier than any other, and the first such one in list order |
| Resolver.ResolveAvailable | requirements_wayback_machine.py:156-170 | on the available releases: no match exactly when no release matches; otherwise the highest version is a matching version at least every other, the latest is the first matching release with the latest upload date, and the outcome is non-monotonic exactly when some matching version outranks the latest |
| Resolver.Resolve | requirements_wayback_machine.py:155-170 | no match exactly when no release is both available and accepted; otherwise the same highest and latest properties over the qualifying releases; a non-monotonic outcome names two different versions |
| Resolver.ResolveAfterCutoff | requirements_wayback_machine.py:155 | resolving releases already cut off at the reference date gives the same outcome |
| Resolver.LaterReleasesIgnored | requirements_wayback_machine.py:155-165 | inserting releases uploaded after the reference date anywhere in the list never changes the outcome |
| Resolver.MonotonicHistoryResolves | requirements_wayback_machine.py:164-170 | if, among qualifying releases, a higher version was always uploaded strictly later, the outcome is not non-monotonic |
| Resolver.NonMonotonicWitness | requirements_wayback_machine.py:164-168 | a non-monotonic outcome always has two qualifying releases behind it: the highest version, uploaded no later than the latest one, which has a lower version |
| Resolver.BackportOfTwo | requirements_wayback_machine.py:164-168 | two qualifying releases where the higher version was uploaded strictly first resolve to non-monotonic, the higher version being the highest and the other the latest |
| Resolver.BackportIsNonMonotonic | requirements_wayback_machine.py:164-168 | 0.1.3 uploaded before 0.1.2, with every version accepted, resolves to non-monotonic 0.1.3 / 0.1.2 |
| Text.Rstrip | requirements_wayback_machine.py:145 | `rstrip` removes a suffix made only of whitespace and leaves no whitespace at the end |
| Text.SplitJoin | requirements_wayback_machine.py:177 | splitting at a separator that no part contains gives the joined parts back |
| Text.PadNatOfDigits | requirements_wayback_machine.py:139 | writing a digit string's value back at the same width gives the string back |
| Annotator.TranslateNewlines | requirements_wayback_machine.py:141-142 | universal-newline reading leaves no carriage return, never lengthens the text, and leaves a text without carriage returns unchanged |
| Annotator.OtherCharKept | requirements_wayback_machine.py:141-142 | every character other than a carriage return is read as itself |
| Annotator.CrIsLineBreak | requirements_wayback_machine.py:141-142 | a carriage return not followed by a newline is read as a newline |
| Annotator.CrLfIsLineBreak | requirements_wayback_machine.py:141-142 | a carriage return followed by a newline is read as a single newline |
| Annotator.SplitLines | requirements_wayback_machine.py:142 | the lines hold no newline, joining them with newlines gives the text back (less a final newline), and there are none only for an empty file |
| Annotator.FileLinesAreClean | requirements_wayback_machine.py:141-145 | every stripped line of a file holds no line break and does not end in whitespace |
| Annotator.IsCommentLineMatchesPattern | requirements_wayback_machine.py:147 | the left-to-right comment test agrees with `\s*(#.*)?` on every line, both ways |
| Annotator.AnnotationText | requirements_wayback_machine.py:160-170 | every annotation starts with the tool's marker |
| Annotator.AnnotationRecordsOutcome | requirements_wayback_machine.py:160-170 | an annotation determines the outcome: different outcomes for the same requirement, the no-match warning included, never print the same text |
| Annotator.WarningIsNotVersionAnnotation | requirements_wayback_machine.py:160-170 | the no-match warning for a requirement differs from every version annotation for it, whatever its name and specifier |
| Annotator.BackportAnnotation | requirements_wayback_machine.py:168 | the non-monotonic `lpips` outcome prints `lpips<=0.1.3 (highest version to date; latest release to date is 0.1.2)` after the marker |
| Annotator.QueryProjectReleases | requirements_wayback_machine.py:127-132 | a failed fetch is an error naming the project; otherwise the result is the reduction of the fetched metadata, its releases on success and its error, tagged with the project, on failure |
| Annotator.AnnotateRequirement | requirements_wayback_machine.py:152-171 | a requirement line gets an annotation exactly when it parses and its releases can be fetched and reduced; the annotation is the text of the resolution of the requirement against those releases on the reference date; an unparsable line fails with the line itself, a failed query with the query's error |
| Annotator.AnnotationReportsResolution | requirements_wayback_machine.py:155-170 | an annotation is the no-match warning exactly when no release qualifies; otherwise whatever outcome it prints names the highest qualifying version and the first latest upload, and shows the latest exactly when a higher version outranks it |
| Annotator.LineOutput | requirements_wayback_machine.py:147-175 | each input line is echoed last, alone or under exactly one annotation; it has an annotation exactly when it is not a comment line and its processing succeeded, and then the annotation is that result |
| Annotator.Output | requirements_wayback_machine.py:144-175 | the echoed lines of the output are exactly the input lines in order, and the output has between one and two lines per input line |
| Annotator.OutputPlaced | requirements_wayback_machine.py:147-175 | every annotation sits directly above the non-comment line it was computed for, every successful requirement line has its annotation directly above it, and a leading echo is a comment or a failed line |
| Annotator.OutputAnnotationsResolve | requirements_wayback_machine.py:152-171 | in the annotated file every annotation is the resolution text of the requirement echoed directly below it |
| Annotator.OutputAppend | requirements_wayback_machine.py:144-175 | the output of a file is the outputs of its parts one after the other: no line affects another |
| Annotator.OutputOfLine | requirements_wayback_machine.py:144-175 | each line contributes exactly its own output, at its own place |
| Annotator.Diagnostics | requirements_wayback_machine.py:173-174 | every report names a line in range that is a failed requirement line, with that line's error, and reports come in increasing line order |
| Annotator.DiagnosticsComplete | requirements_wayback_machine.py:173-174 | every failed requirement line is reported with its own line number and error |
| Annotator.Render | requirements_wayback_machine.py:138-140 | the rendered text starts with the reference-date header |
| Annotator.ProcessRequirementsFile | requirements_wayback_machine.py:135-177 | the annotated file starts with the header, and every report numbers (from 1) a file line whose processing failed |
| Annotator.AnnotateWritesCommentLines | requirements_wayback_machine.py:160-170 | every annotation is a single comment line |
| Annotator.RenderedLines | requirements_wayback_machine.py:177 | reading the annotated file back line by line gives the header, then the output lines in order |
| Annotator.AnnotationsAreComments | requirements_wayback_machine.py:147-150 | an annotation is itself a comment line, so annotating the file again echoes it unchanged |

## Left out

- `query_project_releases` (lines 127-132): the HTTP request and the JSON decoding are a fetch parameter that returns the `releases` entries or fails; they are not modelled.
- A response missing the `releases` key, or an artifact without `upload_time`, raises a `KeyError` in the code. Both fold into a failed fetch in the model; either way the line is echoed and reported.
- `main` (lines 180-223) is not modelled: argument parsing, reading the reference date, writing the output, exit codes and tracebacks.
- Opening and decoding the requirements file is not modelled. An unreadable file aborts the run outside the per-line handler. The model starts from the file's text as characters.
- The text of the stderr report (`basename(path):lineno - error: message`) is not modelled. It is kept as data: a line number and the error.
- Versions: only the release segment is modelled, ordered number by number. Epoch, pre-, post- and dev-releases, local labels, and the PEP 440 rule that `1.0 == 1.0.0` belong to `packaging`, whose source is not part of this model.
- Specifiers: `SpecifierSet.filter` is modelled as a per-version predicate. Its pre-release rule depends on the whole list (pre-releases are kept when nothing else matches), so it is not modelled.
- Dates: `date.fromisoformat` is modelled as in Python 3.7 to 3.10, accepting exactly `YYYY-MM-DD`. The extra formats of Python 3.11 are not modelled.
- Resolver.MonotonicHistoryResolves: Dafny proves this directly from `Resolver.Resolve`'s contract. It restates a consequence of that contract rather than adding proof work.
- Annotator.RenderedLines: assumes the requirement parser never returns a name or specifier containing a newline. Requirement syntax rules this out, but the parser is a parameter here.
- Annotator.ProcessRequirementsFile: does not state that the trailing `"\n".join` adds no final newline; `Annotator.RenderedLines` covers the line structure.
