# Multi-project contributors: a Dafny model

This project models the core of a small command-line tool for monorepos. The
tool validates its arguments (a repository path and a contributors path, by
default `packages`). It counts git-log entries per author over the
sub-folders of the contributors path and keeps the authors with more than one
entry. It then writes a Markdown block listing them into the repository's
`README.md`, between `<!-- contributors:start -->` and
`<!-- contributors:end -->`.

The model is pure. The file system, path joining and the git log query are
inputs:

- `Validation.ValidateArgs` takes the argument list, a `pathExists`
  predicate standing for `existsSync`, and an uninterpreted `join`.
- `Contributors.CountMultiProjectContributors` takes one sequence of author
  names per sub-folder, standing for the log `simpleGit(dir).log()` returns
  for that sub-folder. The call passes no path filter, so inside one
  repository each of these logs is the repository's whole history, not only
  the commits that touch the sub-folder. The model takes the sequences as
  given and does not assume either reading.
- `Readme.UpdateReadMe` takes the current README text and returns the new text.

Modules: `Validation`, `Contributors` and `Readme` model the three functions
of `src/main.ts` (`validateArgs`, `countMultiProjectContributors` and
`updateReadMe`); the others are shared helpers.

- `Wrappers`: `Option` and `Result`.
- `Strings`: JavaScript `trim` (ECMA-262 white space and line terminators),
  `indexOf`, `lastIndexOf`, `includes`, `join('\n')` and `split('\n')`.
- `Decimal`: how a count is printed in a template literal, and the matching parser.
- `Validation`: `validateArgs`, with its three errors in the source's order.
- `Contributors`: the counting loops over a JavaScript `Map`. The map keeps
  insertion order, so keys come out in order of first appearance. The loops
  are proved equal to a declarative reference: every author with more than one
  entry, with that count, in order of first appearance.
- `Splice`: the append-or-replace step, for any opening and closing marker.
  The regular expression `/open([\s\S]*)close/` is modelled as a
  backtracking matcher would run it: the leftmost start position, then the
  greedy star giving back characters from the end. This is proved equal to
  "from the first opening marker to the last closing marker after it". The
  module also proves that splicing a framed block is idempotent.
- `Readme`: rendering the block, parsing it back, and `updateReadMe` as the
  splice of the rendered block between `<!-- contributors:start -->` and
  `<!-- contributors:end -->`.

## Model

| member | source | states |
|---|---|---|
| Strings.Trim | src/main.ts:7 | the trimmed repository path is empty exactly when the argument is all white space; otherwise it neither starts nor ends with white space, and it is the argument with only white space removed around it |
| Strings.TrimIdempotent | src/main.ts:7 | trimming an already trimmed path changes nothing |
| Validation.RepoPathArg | src/main.ts:7 | the repository path is empty exactly when there is no first argument or it is all white space |
| Validation.ContributorsPathArg | src/main.ts:8 | the contributors path is the second argument when that is present and non-empty, otherwise `packages`; it is never empty and never trimmed |
| Validation.ValidateArgs | src/main.ts:6-23 | "No repo path provided" exactly when the first argument is missing or blank, whatever the file system says; otherwise "repo path does not exist" exactly when the trimmed path does not exist; otherwise the contributors error exactly when `join(repoPath, contributorsPath)` does not exist; on success the result is the trimmed first argument and the defaulted second, and both checked paths exist |
| Validation.ValidateArgsExamples | src/main.spec.ts:12-39 | the four unit-test scenarios: no arguments, a missing repository, a missing contributors folder, and the `packages` default |
| Validation.ValidateArgsMessages | src/main.ts:9-21 | for every argument list, each of the three error texts the unit tests expect is raised exactly under the condition that raises it in the source, and no text is raised exactly when validation succeeds |
| Contributors.RecordEntry | src/main.ts:39-42 | one `set(author, (get(author) or 0) + 1)` keeps the map a faithful tally: keys in first-appearance order, a key for exactly the authors seen, each with its number of entries |
| Contributors.TallyFolder | src/main.ts:38-43 | the inner loop over one sub-folder's entries extends a faithful tally of the entries seen before by exactly those entries |
| Contributors.TallyLogs | src/main.ts:33-44 | after the nested loops the map's keys are the distinct authors in first-appearance order over all sub-folders, and each count is that author's number of entries |
| Contributors.CountMultiProjectContributors | src/main.ts:25-46 | the loops followed by `filter(count > 1)` produce exactly the declarative reference list |
| Contributors.CommitsAcrossFolders | src/main.ts:34-44 | an author's count is the sum of their entries over the sub-folder logs, so entries are counted and not distinct folders |
| Contributors.AuthorsInOrder | src/main.ts:33-45 | the distinct authors follow their first appearance in the concatenated logs |
| Contributors.MultiProjectContributorsSpec | src/main.ts:38-45 | the result lists exactly the authors with more than one entry, each with that count, none twice, in order of first appearance |
| Contributors.MultiProjectContributorsExamples | src/main.ts:33-45 | an author with entries in two folders is listed with 2; an author with one entry is not; two entries in one folder also give 2 |
| Decimal.NatToString | src/main.ts:55-56 | a printed count has at least one character, all decimal digits, no leading zero unless it is `0`, and is one digit exactly when the count is below ten |
| Decimal.DigitsValueOfNatToString | src/main.ts:55-56 | a printed count reads back as the same number |
| Readme.Render | src/main.ts:54-56 | the block begins with the start marker and ends with the end marker; it contains no `$` when no name does |
| Readme.RenderLines | src/main.ts:54-56 | for names without a line feed, the block's lines are the start marker, one `- name (count)` line per contributor (a single empty line when there are none), `Total: n` with n the number of contributors, and the end marker |
| Readme.RenderParses | src/main.ts:54-56 | parsing a rendered block gives back the contributor list it came from, names and counts included |
| Readme.RenderInjective | src/main.ts:54-56 | for names without a line feed, different contributor lists render to different blocks |
| Splice.RegexSearch | src/main.ts:60-63 | a match starts with the opening marker and ends with the closing marker, and the closing marker lies wholly after the opening one |
| Splice.GreedyEndIsLast | src/main.ts:61 | the greedy `([\s\S]*)` ends the match at the last closing marker of the text, if that lies after the opening marker |
| Splice.RegexSearchIsRegion | src/main.ts:61 | the leftmost greedy match runs from the first opening marker to the last closing marker after it, and there is none when no closing marker follows the first opening marker |
| Splice.RegionBounds | src/main.ts:60-63 | no opening marker lies before the replaced region and no closing marker after it, so all the kept text is outside the region |
| Splice.SpliceBlock | src/main.ts:57-63 | without the opening marker, the old text is kept as a prefix followed by a blank line and the block; with an opening marker and a closing marker after it, the text before the first opening and after the last closing marker is kept and the block replaces what lies between; with an opening marker but no closing marker after it, the text is unchanged |
| Splice.SpliceMakesRegion | src/main.ts:57-63 | when the text had no opening marker or had a region, the region of the result is exactly the inserted block |
| Splice.SpliceIdempotent | src/main.ts:57-63 | splicing twice with the same block gives the same text as splicing once, for any block framed by the two markers whose opening marker is a single line |
| Readme.UpdateReadMe | src/main.ts:48-64 | the README update appends after a blank line, replaces the marked region, or leaves the text alone, as above, with the rendered block; after an append or a replacement, the marked region of the new text is exactly the rendered block |
| Readme.UpdateReadMeIdempotent | src/main.ts:48-63 | running the README update twice with the same contributors gives the same text as running it once |

## Notes on the code

- The tool counts log entries, not distinct folders: an author with two
  entries in one sub-folder also has a count of 2 and is listed. See
  `Contributors.CommitsAcrossFolders` and
  `Contributors.MultiProjectContributorsExamples`.
- The block has a single totals line, `Total: n`, where n is the number of
  listed contributors.
- The whole match is replaced, markers included, from the first start marker
  to the LAST end marker. Any earlier end markers and extra blocks in between
  are removed too.

## Left out

- File system access (`existsSync`, `readdirSync`, `statSync`, `readFileSync`,
  `writeFile` and its error logging): existence is the `pathExists`
  parameter. The list of sub-folders and the README text are inputs, and the
  new README text is the result.
- `path.join` normalisation: `join` is an uninterpreted parameter.
- The `simple-git` log query: a foreign library. Each sub-folder's log is
  given as its sequence of author names.
- `main`: its async sequencing and the try/catch that logs to the console.
- Splice.SpliceBlock: requires the block to contain no `$`. With `$`, JavaScript's
  `replace` would expand `$&`, `$1`, `` $` `` and `$'`, and this is not
  modelled.
- Readme.UpdateReadMe: requires that no contributor name contains `$`, for
  the same reason; so do `Readme.UpdateReadMeIdempotent` and the `$` clause
  of `Readme.Render`.
- Readme.RenderParses: requires that names contain no line feed. A name with
  one would make the block ambiguous, so the round trip is only stated for
  single-line names.
- Strings are sequences of Unicode scalar values. JavaScript's UTF-16 code
  units, such as lone surrogates, are not modelled.
- Counts are unbounded natural numbers. The JavaScript number type and its
  printing of very large values are not modelled.
