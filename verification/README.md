# Commit generator, municipality join and snippet merge — a Dafny model

This project models the scripted core of a small TypeScript tool repository.
It covers three parts.

- **The commit-message generators.**
  - `src/generate-commit-axios.ts` is the interactive one:
    - It asks for a mode.
    - In automatic mode it stages the chosen paths and captures the staged diff; in manual mode it uses the saved diff file.
    - It refuses a blank diff and asks a completion service for a proposal.
    - It extracts a title and a description with two case-insensitive regular expressions and builds a `git commit` command line.
    - It saves that command. Then it either prints the command (manual mode) or asks for a raw `y`/`n` key and commits (automatic mode).
  - `src/generate-commit.ts` is the earlier file-only variant. It has no mode, no staging, no blank-diff guard and no confirmation.
- **`normalizeCode` and the ISTAT join** in `src/merge-comuni.ts`. Every row of the ISTAT municipality list gets the postal code and coordinates of the postal-code row with the same zero-padded code.
- **`loadAllSnippets` and the reported count** in `src/sync-snippets.ts`. This merges the `.json` snippet files of a folder into one object, with duplicate-key warnings.

## Modules

| Module | File | What it models |
|---|---|---|
| `Wrappers` | `wrappers.dfy` | `Option` and `Result`. |
| `Text` | `text.dfy` | The ECMAScript white-space set shared by `\s` and `trim`, line terminators (where `.` stops), `trim`, ASCII `toLowerCase`, and the leftmost case-insensitive search of a literal pattern. |
| `Records` | `records.dfy` | A JavaScript plain object as an ordered list of key/value entries. Reading returns the entry for the key. Assigning replaces a value in place or appends a new key. |
| `Proposal` | `proposal.dfy` | The title and description captures, the fallback title, and the `git commit -m … [-m …]` command line. Also a decoder for that command line and the canonical layout the prompt asks for. |
| `Prompt` | `prompt.dfy` | The two prompt templates, with the diff interpolated verbatim. |
| `Confirm` | `confirm.dfy` | The raw-mode key handler of the yes/no prompt, folded over the chunks stdin delivers. |
| `Pipeline` | `pipeline.dfy` | One run of the interactive generator as a state machine (`Step`/`Run`) over an environment. The run yields an end state and a trace of outward effects. `Plan` is a straight-line reference that follows the script's nested conditionals. It is built from the same per-step functions (`AnswerOf`, `Confirmation`, `AcquiredDiff`, `StageCommand`). `ExecuteMatchesPlan` proves the state machine and `Plan` agree. |
| `Draft` | `draft.dfy` | The file-only generator, with its own reading of the HTTP reply, and how it relates to the interactive one in manual mode. |
| `Comuni` | `comuni.dfy` | `normalizeCode`, the code-to-row lookup, the merge, the output columns and the cells written per row. |
| `Snippets` | `snippets.dfy` | `loadAllSnippets` as a loop with invariants over already-listed and already-parsed files, and the key count `syncSnippets` reports. |

**The environment (`Pipeline.Env`).** This is where the run's outside world enters as parameters:
- the two typed answers;
- whether `git add` succeeds, and what `git diff --staged` prints;
- the saved diff file's content, or its absence;
- the completion service's reply: no response, or an HTTP status with a body that is not JSON, the JSON `null`, or another JSON value with or without a `choices` list;
- the key chunks typed at the confirmation prompt;
- whether `git commit` succeeds.

**Effects.** An `ApiCall` effect records the template and the diff. The prompt text that goes out is `Prompt.PromptText(template, diff)`.

**Thrown errors.** An error the script throws and catches is the end state `Failed`.

**Code versus comment.** The comment above `normalizeCode` describes removing leading zeros (001001 to 1001). The code does the opposite: it pads to six characters with leading zeros. The model follows the code.

## Model

| member | source | states |
|---|---|---|
| Text.Trim | src/generate-commit-axios.ts:149-151 | The trimmed text starts and ends with no white space and is no longer than the input. |
| Text.TrimPadded | src/generate-commit-axios.ts:149 | `trim` removes exactly the white space around a trimmed core. This pins down `trim` on every input. |
| Text.TrimSplit | src/generate-commit-axios.ts:151 | Every string is its trimmed form between two blank pieces. |
| Text.TrimEmptyIffBlank | src/generate-commit-axios.ts:100 | `!diff.trim()` holds exactly when the diff is empty or white space only. |
| Text.TrimIdempotent | src/generate-commit-axios.ts:34 | Trimming twice is the same as trimming once. |
| Text.TrimIgnoresBlankPrefix | src/generate-commit-axios.ts:146 | White space in front of a string does not change its trimmed form. This is why the `\s*` before the description capture makes no difference. |
| Text.Find | src/generate-commit-axios.ts:145-146 | Gives the leftmost case-insensitive occurrence of the key. No earlier position matches. None is returned exactly when the key occurs nowhere. |
| Text.SkipSpaces | src/generate-commit-axios.ts:145 | The greedy `\s*` stops after a blank run, at a non-space character or at the end. |
| Text.LineEnd | src/generate-commit-axios.ts:145 | The greedy `.*` stops at the first line terminator or at the end. No terminator occurs before that point. |
| Proposal.TitleCapture | src/generate-commit-axios.ts:145 | There is no capture exactly when `title:` occurs nowhere in any case. Otherwise the capture is the rest of the line after the first `title:` and the white space that follows it. |
| Proposal.DescriptionCapture | src/generate-commit-axios.ts:146 | There is no capture exactly when `description:` occurs nowhere. Otherwise the capture is all the text after the first match and its following white space. |
| Proposal.ExtractTitle | src/generate-commit-axios.ts:145-150 | The title is trimmed and single-line. With no `title:` anywhere it is the fallback title. Otherwise it is the trimmed capture. |
| Proposal.ExtractDescription | src/generate-commit-axios.ts:146-151 | The description is trimmed. It is empty with no `description:` anywhere. Otherwise it is the trimmed text after the first `description:`. |
| Proposal.TitleAfterKey | src/generate-commit-axios.ts:145-150 | A text that starts with `title:` in any case, then blanks, then a trimmed line ending at a line break or at the end, has that line as its title. |
| Proposal.TitleOfRenderedLine | src/generate-commit-axios.ts:145-150 | `title: x` gives back `x` for every trimmed single-line `x`. |
| Proposal.BareTitleLineTakesNextLine | src/generate-commit-axios.ts:145 | Because `\s*` also crosses line breaks, `title:` on a line of its own takes the next line as the title. |
| Proposal.BlankTitleIsEmpty | src/generate-commit-axios.ts:148-150 | A present but blank title gives the empty title, not the fallback. |
| Proposal.DescriptionKeyAfterTitle | src/generate-commit-axios.ts:146 | In the requested layout, the first `description:` is the one on the second line, provided the title does not contain that key. |
| Proposal.ParseLayout | src/generate-commit-axios.ts:145-151 | Parsing the requested two-line layout gives its title and the trimmed text after the description key. |
| Proposal.ParseRender | src/generate-commit-axios.ts:115-117 | Rendering a proposal in the requested output format and parsing it back gives the same proposal. |
| Proposal.CommandRoundTrip | src/generate-commit-axios.ts:152-154 | With a quote-free title, the command line reads back to the proposal. There is a second `-m` message exactly when the description is non-empty. |
| Proposal.CommandAmbiguousWithQuotes | src/generate-commit-axios.ts:152-154 | Without escaping, a title containing quotes can produce the same command line as a different proposal. |
| Proposal.SingleMessageResponse | src/generate-commit-axios.ts:152-154 | A reply in the requested layout with a blank description gives a single-message command. |
| Proposal.TwoMessageResponse | src/generate-commit-axios.ts:152-154 | A reply with a non-blank description gives a two-message command carrying the trimmed description. |
| Prompt.DiffRoundTrip | src/generate-commit-axios.ts:105-121 | The diff travels through the prompt unchanged and can be read back out of it. |
| Prompt.RenderInjective | src/generate-commit-axios.ts:105-121 | Two prompts are equal exactly when their diffs are equal. |
| Prompt.TemplatesDiffer | src/generate-commit.ts:31-46 | The two generators send different prompts for the same diff. |
| Confirm.AwaitYesNo | src/generate-commit-axios.ts:47-62 | The prompt is still waiting exactly when no chunk is decisive. Otherwise the first decisive chunk decides: `y`/`Y` means yes, `n`/`N` means no, Ctrl+C interrupts. |
| Confirm.YesNoKeys | src/generate-commit-axios.ts:48-49 | Only `y` and `Y` count as yes, and only `n` and `N` count as no. |
| Confirm.IgnoredThenYes | src/generate-commit-axios.ts:47-62 | Any run of ignored chunks followed by `y` resolves to yes. |
| Confirm.PastedWordIgnored | src/generate-commit-axios.ts:48-49 | A pasted multi-key chunk such as `yes` is ignored. |
| Confirm.InterruptOrder | src/generate-commit-axios.ts:49-58 | Ctrl+C before any answer interrupts. An answer before Ctrl+C wins. |
| Pipeline.ModeIffPaddedOne | src/generate-commit-axios.ts:69-73 | The automatic mode is chosen exactly by a `1` with nothing but white space around it. |
| Pipeline.ModeAnswers | src/generate-commit-axios.ts:73 | ` 1\n` is automatic. `2`, the empty answer and `01` are manual. |
| Pipeline.StageCommand | src/generate-commit-axios.ts:78-88 | The staging command always starts with `git add `. Unless the answer is `all` in some case, the answer follows unchanged. |
| Pipeline.StageAllIff | src/generate-commit-axios.ts:78-88 | Everything is staged exactly for the answer `.` or a case variant of `all`. |
| Pipeline.StepLowersRank | src/generate-commit-axios.ts:66-181 | Every step of a run moves strictly closer to its end, and a finished run stays put. So every run terminates. |
| Pipeline.ExecuteMatchesPlan | src/generate-commit-axios.ts:66-181 | The state machine and the straight-line reference give the same end and the same effect trace for every environment. |
| Pipeline.ManualLeavesRepositoryAlone | src/generate-commit-axios.ts:94-96 | Manual mode never stages, diffs, overwrites the diff file, prompts for a key or commits. |
| Pipeline.AutomaticStagesFirst | src/generate-commit-axios.ts:78-93 | Automatic mode stages first. A staging error stops the run there. Otherwise the staged diff is captured and saved next. |
| Pipeline.CallIffProceeds | src/generate-commit-axios.ts:99-137 | The completion service is called exactly when a non-blank diff was obtained. It is called once, with that diff and the interactive template. |
| Pipeline.OutputIffChoices | src/generate-commit-axios.ts:139-156 | The command file is written exactly when the reply holds a completion. What is written is the command built from the first completion. |
| Pipeline.CommitIffAccepted | src/generate-commit-axios.ts:162-165 | `git commit` runs exactly when the user answered yes in automatic mode. |
| Pipeline.AcceptedTrace | src/generate-commit-axios.ts:73-166 | An accepted run performs these steps in order: stage, capture, save, request, write the command, prompt, then commit that very command. |
| Pipeline.EndOf | src/generate-commit-axios.ts:99-177 | Each end state other than `Failed` is reached exactly under its own condition on the environment. |
| Pipeline.EmptySnapshotStops | src/generate-commit-axios.ts:99-103 | In manual mode, an empty diff file ends the run before any effect. |
| Pipeline.EmptyChoicesStop | src/generate-commit-axios.ts:139-142 | A 2xx reply with an empty `choices` list, or with a body that is not JSON, ends the run right after the request. |
| Pipeline.ErrorStatusFails | src/generate-commit-axios.ts:123-137 | axios rejects a non-2xx status whatever the body holds, so the run fails right after the request. |
| Draft.RunDraft | src/generate-commit.ts:28-102 | There is no effect exactly when the diff file is missing. The first effect is the request with the file-only template. The run saves exactly when some response, whatever its status, holds a completion. It ends without choices exactly when a JSON body, whatever its status, has no completion. |
| Draft.AnswersAgreeIff | src/generate-commit.ts:48-68 | node-fetch and axios read a reply alike exactly when there is no response, the body is `null`, or the status is 2xx just when the body is JSON. |
| Draft.ClientsDiffer | src/generate-commit.ts:48-68 | A 500 with a JSON error body fails the interactive run but ends the file-only run without choices. A 2xx plain-text body does the opposite. |
| Draft.SavedIsPrinted | src/generate-commit.ts:92-102 | The saved command and the printed command are the same, and both are built from the first completion. |
| Draft.BlankDiffStillRequested | src/generate-commit.ts:29-48 | A blank diff is still sent to the service, whereas the interactive generator stops on it. |
| Draft.ManualModeMatchesDraft | src/generate-commit.ts:28-102 | On a non-blank diff, and given the same reading of the reply, the interactive generator in manual mode matches this one effect for effect; only the prompt template differs. When both clients read the reply alike, the two runs agree. |
| Records.Get | src/sync-snippets.ts:34 | Reading a key finds nothing exactly when the object has no such key. |
| Records.PutGet | src/sync-snippets.ts:37 | After an assignment the key holds the new value, and every other key is unchanged. |
| Records.PutKeys | src/sync-snippets.ts:37 | An assignment keeps the key order: an existing key stays in place and a new key is appended. |
| Records.PutDistinct | src/sync-snippets.ts:37 | An assignment never creates a duplicate key. |
| Comuni.NormalizeCode | src/merge-comuni.ts:23-26 | An absent or empty code gives the empty string. Any other code gives its trimmed form, left-padded with zeros to exactly six characters. A trimmed code longer than six keeps its length. |
| Comuni.LongCodeKept | src/merge-comuni.ts:25 | A trimmed code of six or more characters is kept as is. |
| Comuni.BlankCodeIsZeros | src/merge-comuni.ts:24-25 | A non-empty blank code is not skipped. It becomes `000000`. |
| Comuni.NormalizeIdempotent | src/merge-comuni.ts:23-26 | Normalising a normalised code changes nothing. |
| Comuni.BuildLookup | src/merge-comuni.ts:47-52 | The lookup holds exactly the non-empty normalised codes. Each code maps to the last postal-code row that carries it. |
| Comuni.LookupMiss | src/merge-comuni.ts:47-52 | A code no row carries, or the empty code, is not in the lookup. |
| Comuni.ReplaceFirst | src/merge-comuni.ts:62-63 | Only the first occurrence of the character is replaced, and the length is kept. |
| Comuni.OnlyFirstComma | src/merge-comuni.ts:62-63 | `1,2,3` becomes `1.2,3`. |
| Comuni.MergeComuni | src/merge-comuni.ts:55-91 | An empty ISTAT list fails, because of `Object.keys` on the missing first row. Otherwise there is one output row per ISTAT row, and the header is the first row's keys followed by the three added columns. |
| Comuni.JoinHit | src/merge-comuni.ts:55-85 | A matched row gets the trimmed postal code and the dot-corrected coordinates of the last matching postal-code row. All of its own fields are kept. |
| Comuni.JoinMiss | src/merge-comuni.ts:55-85 | An unmatched row gets empty postal code and coordinates. All of its own fields are kept. |
| Comuni.JoinKeepsOrder | src/merge-comuni.ts:59-64 | Every output row starts with its ISTAT row's fields in their order, and keys stay distinct. |
| Comuni.FinalRowSpec | src/merge-comuni.ts:78-85 | The output columns hold the same values as the added `cap`, `lat` and `lon` properties. |
| Comuni.OutputColumns | src/merge-comuni.ts:69-75 | The column list fails exactly when there is no first ISTAT row. Otherwise it is the first row's keys in order, then `Codice di avviamento postale`, `Latitudine` and `Longitudine`. |
| Comuni.ColumnsDistinct | src/merge-comuni.ts:69-75 | A first row with distinct keys, none of them an added name, gives a header with no repeated column. |
| Comuni.OutputLine | src/merge-comuni.ts:69-91 | A written line holds the row's original values in header order, then the chosen postal code, latitude and longitude. |
| Snippets.LoadAllSnippets | src/sync-snippets.ts:23-43 | The result has distinct keys in order of first appearance. Each key holds its last value over the `.json` files in directory order. The warnings are exactly the duplicate-key checks that fired. |
| Snippets.NonJsonIgnored | src/sync-snippets.ts:28 | A file whose name does not end in `.json` contributes nothing. |
| Snippets.LaterFileWins | src/sync-snippets.ts:33-37 | A key defined by a later `.json` file gets that file's value. |
| Snippets.WarningIff | src/sync-snippets.ts:34-36 | A key is warned about exactly when an entry for it meets a truthy value already stored under it. |
| Snippets.FalsyDuplicateSilent | src/sync-snippets.ts:34-36 | Overwriting a falsy value is silent, and overwriting a truthy one warns. |
| Snippets.SyncSnippets | src/sync-snippets.ts:46-53 | The count reported is the number of distinct keys over all `.json` files. |

## Left out

- **Console output and file writes:** modelled only as effects or left out. Log lines are not modelled. Writing the merged CSV or the snippet file is not modelled either.
- **API key check:** the check on `OPENROUTER_API_KEY` and its `process.exit(1)` happen at process start, before any modelled step.
- **HTTP:** the HTTP exchange is a parameter (`Pipeline.Reply`), reduced to the final status and a classified body. Redirects, headers and timeouts are not modelled. A `choices` value that is not an array is not modelled.
- **Completion text without a string:** a completion whose `text` is not a string is not modelled. Such a text would make `.match` throw.
- **`git diff --staged` and file-write failures:** these are not modelled. Of the git and file-write steps, only `git add` and `git commit` can fail in the model. A missing diff file and a thrown HTTP error also end in `Failed`.
- **Ctrl+C:** ends the process; it is the end state `Interrupted`, with no effects after it.
- **Shell quoting:** `git add` and `git commit` run through a shell, and quoting, word splitting and injection are not modelled. `Proposal.CommandAmbiguousWithQuotes` shows the ambiguity at the string level.
- **CSV and JSON parsing:** CSV parsing and stringifying, and `JSON.parse`, are not modelled. Rows and snippet files come in already parsed. A malformed file throws in the script and is not modelled.
- **Numeric codes:** `normalizeCode` on a numeric argument is not modelled. The parsed CSV only yields strings.
- **Directory listing:** `readdirSync` order is a parameter (the order of `files`). The `APPDATA` path is not modelled.
- **Prototype keys:** special property names such as `__proto__` or inherited keys like `constructor` are not modelled. Each key is a plain own property.
- Records.PutKeys: the order is pure insertion order. JavaScript lists integer-like keys first, in numeric order, so for snippet names or CSV headers that look like integers, the key order stated here differs from the script's.
- Comuni.JoinHit: assumes every postal-code row has all four fields. A missing `cap`, `lat` or `lon` makes the script throw on a hit, and that case is not modelled.
- **Other source files:** the web routes, middleware, server entry point, type declarations and UI components are not part of this model.
- **Request settings:** the model name, `max_tokens` and `temperature` sent with the request are not modelled. They only influence the reply, which is a parameter.
