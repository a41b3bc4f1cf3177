# Verified model of the microprint-generator CI script

The script runs inside a CI job. It reads its settings from the environment
and builds an API client for an `owner/repo` repository. It finds the first
job of the current workflow run whose name matches, then downloads that job's
log. If asked, it saves the raw log. It then deletes terminal escape sequences
from the text and passes the result to an external renderer. That renderer
draws an SVG or PNG "microprint" of the log.

This project models the parts of `script.py` that are logic rather than
plumbing, and proves properties of them in Dafny:

- `ansi.dfy`, module `AnsiEscape`. This is the escape-sequence stripper
  (`remove_ansi_escape_sequences`). The regular expression is modelled as a
  deterministic left-to-right scanner, `Strip` with `MatchLength`. A separate
  grammar, `IsEscapeSequence`, defines what the pattern matches: ESC Fe with Fe
  in 0x40–0x5A or 0x5C–0x5F (section 5.3 of ECMA-48), and the control sequence
  ESC `[` P* I* F (section 5.4 of ECMA-48). The lemmas prove three things:
  - the scanner finds exactly the grammar's unique matching prefix;
  - the substitution removes what it should and keeps what it should;
  - the output is unchanged exactly when the input contains no escape sequence.
- `jobs.dfy`, module `Jobs`. This is the job lookup (`get_job_by_name`), modelled
  as a `while` loop that returns early, proved against the recursive
  `FirstJobNamed`. It also has the id read of `get_job_id`, which requires a
  match.
- `repository.dfy`, module `Repository`. This has `str.split("/")` with its
  round trips, the owner/repo split of `setup_api`, and the client's base URL
  (`Api.__init__`).
- `microprint.dfy`, module `Microprint`. This is the flow of `main` and
  `get_logs`. The settings are a `Config` value. The two service responses
  (the job list and the log text) are parameters. The raw-log write and the
  renderer call are returned as values.
- `wrappers.dfy`, module `Wrappers`, holds `Option` and `Result`.

Python's `None` from the lookup and the script's uncaught exceptions are
modelled with `Option`/`Result`. Techniques used in the proofs: a loop
invariant in `GetJobByName`, recursive contracts in `FirstJobNamed`, `Split`,
`LeadingRun` and `Strip`, and lemmas by explicit induction.

The stripper is not idempotent: deleting a sequence can move an earlier,
unmatched ESC next to text that then forms a new sequence
(`StripNotIdempotent`).

## Model

| member | source | states |
|---|---|---|
| AnsiEscape.MatchLength | script.py:72 | the length of the match at the start of the text is 0, or at least 2 and within the text; a match always begins with ESC |
| AnsiEscape.MatchLengthExact | script.py:72 | a prefix of length k is one of the pattern's escape sequences (ESC Fe, or ESC [ params* intermediates* final) exactly when k is the length the scanner finds, so the match at a position is unique and found whenever it exists |
| AnsiEscape.Strip | script.py:70-74 | deleting the matches never makes the text longer |
| AnsiEscape.StripIsSubsequence | script.py:72-74 | the output is a subsequence of the input: the substitution only deletes characters |
| AnsiEscape.StripCleanPrefix | script.py:72-74 | a prefix without ESC is copied through unchanged: Strip(a + b) == a + Strip(b) |
| AnsiEscape.StripWithoutEscIsIdentity | script.py:72-74 | text that contains no ESC character is returned unchanged |
| AnsiEscape.StripUnchangedIff | script.py:72-74 | the output equals the input if and only if no substring of the input is an escape sequence |
| AnsiEscape.StripRemovesSequence | script.py:72 | a complete escape sequence at the scan position is deleted entirely, and scanning continues right after it |
| AnsiEscape.StripRemovesTwoCharEscape | script.py:72 | ESC followed by any byte in 0x40-0x5A or 0x5C-0x5F is deleted |
| AnsiEscape.BracketStartsControlSequence | script.py:72 | ESC [ is not a two-character escape; whatever is deleted at an ESC [ is a complete control sequence of length at least 3 |
| AnsiEscape.StripKeepsUnmatchedEsc | script.py:72-74 | an ESC that begins no escape sequence is kept, and scanning resumes at the next character |
| AnsiEscape.StripKeepsInterruptedSequence | script.py:72-74 | ESC [ with parameter bytes, followed by the end of text or by another ESC, is kept verbatim and scanning continues after its ESC |
| AnsiEscape.ControlSequenceOf | script.py:72 | ESC [, any parameter bytes, any intermediate bytes and one final byte form a control sequence |
| AnsiEscape.StripColouredWord | script.py:72-74 | a word between the colour codes ESC[31m and ESC[0m, followed by ESC-free text, comes out as the word and the text |
| AnsiEscape.ColouredErrorExample | script.py:72-74 | "ESC[31mERROR ESC[0m: failed" becomes "ERROR: failed" |
| AnsiEscape.UnmatchedEscExamples | script.py:72-74 | a trailing ESC, an unterminated "ESC[12" and ESC before a byte outside both alternatives survive unchanged |
| AnsiEscape.InterruptedSequenceExample | script.py:72-74 | in "ESC[1;2 ESC[0m" the interrupted prefix is kept and the complete sequence after it removed |
| AnsiEscape.StripNotIdempotent | script.py:72-74 | "ESC ESC[m[m" strips to "ESC[m", which strips to "": a second pass can delete more |
| Jobs.FirstJobNamed | script.py:21-25 | the result is a job at the first position whose name equals the target exactly, and nothing is returned if and only if no job has that name |
| Jobs.FirstJobNamedAt | script.py:21-25 | whichever position is the first exact match, the lookup returns the job at that position; later jobs with the same name are never chosen |
| Jobs.GetJobByName | script.py:21-25 | the loop returns the job at the first exact name match, every earlier job having a different name, and returns None if and only if no job matches; it agrees with FirstJobNamed |
| Jobs.JobId | script.py:28-36 | defined only when some job matches; the id is that of the first job with the name |
| Jobs.ResolveExample | script.py:21-36 | jobs build(1) and test(2): "test" resolves to id 2; "deploy" resolves to nothing |
| Repository.Split | script.py:41 | splitting always yields at least one piece |
| Repository.JoinSplit | script.py:41 | joining the pieces with "/" gives back the original string |
| Repository.SplitSeparatorFree | script.py:41 | no piece contains the separator |
| Repository.SplitJoin | script.py:41 | splitting a join of separator-free pieces gives back those pieces |
| Repository.SplitSeveralIff | script.py:41-45 | there is a second piece (index 1 exists) if and only if the string contains "/" |
| Repository.SplitRepository | script.py:41-45 | fails exactly when there is no "/"; otherwise owner and repo contain no "/", the input starts with owner/repo, and what follows is nothing or another "/" |
| Repository.SplitRepositoryRoundTrip | script.py:41-45 | "owner/repo" built from slash-free names splits back into exactly those names |
| Repository.NewApi | script.py:8-12 | the client keeps owner, repo and token, and its base URL is the repository's actions URL with the owner placed before the repo |
| Repository.BaseUrlInjective | script.py:12 | two clients with the same base URL and slash-free owners have the same owner and repo |
| Repository.SetupApi | script.py:39-49 | there is no client exactly when the repository has no "/"; otherwise the client carries the token, its owner and repo are exactly the first two "/"-separated pieces of the string, and its base URL names them |
| Repository.SetupApiRoundTrip | script.py:39-49 | for "owner/repo" the client's owner, repo and base URL are those names in that order, even though Api takes the repo first |
| Microprint.RenderMethodOf | script.py:87-94 | the vector renderer is chosen if and only if the setting is exactly "svg" |
| Microprint.ImagePath | script.py:83-94 | the image goes into the configured directory under the configured name plus four characters, which are ".svg" exactly when the setting is "svg" and ".png" exactly when it is not |
| Microprint.ImagePathInjective | script.py:87-94 | the same image path implies the same file name and the same svg/raster choice |
| Microprint.ImagePathExample | script.py:87-94 | "/out" and "run1" give /out/run1.svg for "svg" and /out/run1.png for any other setting |
| Microprint.SavedLog | script.py:62-66 | the raw log is written if and only if the setting is exactly "true", with the fetched text unchanged, to the configured name plus ".txt" |
| Microprint.Run | script.py:76-94 | the run fails exactly when the repository has no "/", or when no job has the name; otherwise it picks the first matching job's id, saves the raw text only when the setting is "true" and then to <INPUT_LOG_PATH>/<INPUT_LOG_FILENAME>.txt, and renders the stripped text with the chosen renderer, path and scale |

## Left out

- `Api.get` and all HTTP requests are not modelled (script.py:14-18, 30, 60). That includes the request URLs, the `Authorization` and `Accept` headers, response status handling and JSON decoding. The job list and the log text enter `Run` as parameters.
- `Run` trusts its inputs to match the run: `jobsOfRun` stands for the job list the service returns for `Config.runId` (script.py:30), and `rawLog` for the log it returns for the chosen job id (script.py:60). Nothing in the model ties them to those requests, and `runId` is carried only to name the run.
- The job list is taken as already extracted from the response's `jobs` field (script.py:32). A job record missing `name` or `id` would raise an error; that case is not modelled, since every record has both fields here.
- Environment-variable reads are not modelled. Each variable's value is a field of `Config`, so a missing variable, which raises an error in the script, is not represented.
- Converting `INPUT_MICROPRINT_SCALE` with `int(...)` is a library routine (script.py:85). The scale is taken as an already converted integer.
- Writing the raw log to disk (script.py:65-66) is not performed. `SavedLog` returns the write as a value.
- `pathlib` joining is represented by a (directory, name) pair. Path normalisation is not modelled.
- The two renderer entry points are not modelled (script.py:3, 90, 94). They belong to an external library whose algorithm is not part of this model. `Run` returns the request it would hand to them.
- Python strings are sequences of code points, modelled as `seq<char>`. A Dafny `char` is a Unicode scalar value, so the lone surrogates a Python `str` can hold are not represented. No encoding or decoding is modelled.
