# jetbridge (opencode provider), modelled in Dafny

jetbridge is an IntelliJ plugin that sends prompts from the editor to a
locally running coding agent. This project models the core of its
opencode provider as pure functions over immutable values:

- **Macros** (`macros.dfy`): expansion of the inline macros `@this`, `@these`
  and `@file` against the editor context; removal of the literal macro tokens
  and of the agent selector `@a:\w+` before sending; the relative path shown
  for the current file.
- **Context** (`context_utils.dfy`): the snapshot of the editor taken when an
  action fires. Offsets are clamped into the document and positions are
  numbered from 1. The `L<l>:C<c>-L<l>:C<c>` / `L<l>` description comes with a
  parser that reads it back.
- **OpenCode API** (`opencode_api.dfy`):
  - server discovery from `lsof` output and `/path` probes;
  - the `prompt_async` request and its 2xx success test;
  - the line loop that turns the server-sent-event stream into events.
- **OpenCode provider** (`open_code_provider.dfy`):
  - agent extraction;
  - how `ensureConnected` chooses a server and a session (the saved pair
    first, then the server nearest the file and its most recently updated
    session);
  - the state changes made by `connect` and by the event collector;
  - the `prompt` and `reconnect` pipelines.
- **Settings** (`jetbridge_settings.dfy`): provider names and the provider
  getter that caches one provider object.
- **Prompt dialog** (`prompt_dialog.dfy`):
  - the macro highlight ranges;
  - the `:q` / `:wq` command dispatch;
  - the Escape decision.
- `text.dfy` holds the Kotlin string operations the core relies on, and
  `wrappers.dfy` holds `Option` (nullable values) and `Result`.

Kotlin semantics are written out explicitly:

- `String.replace` replaces leftmost, non-overlapping occurrences.
- `contains` is `indexOf(...) >= 0`.
- `Regex.find` returns the leftmost match; `\w+` and `\d+` are greedy.
- `\w` and `\d` are ASCII.
- `trim()` uses the JVM whitespace set (`Character.isWhitespace` or a space
  separator).
- `lowercase()` is ASCII-only. That gives the same `q` / `wq` decision as the
  full Unicode mapping: only `q`, `Q`, `w` and `W` lower-case to `q` or `w`.

The environment is made of inputs:

- the `pgrep` pid list and each pid's `lsof` lines;
- the `/path` probe and the `/session` listing per address, both as functions;
- whether `URI.create` accepts a URL;
- the sequence of line reads on the event stream;
- JSON decoding, as a partial function;
- the editor's offset-to-position conversion.

Each provider operation returns the next connection state, the saved
reconnect pair, and the list of effects it performs, in order.

Behaviour of the code a reader may not expect:

- **`cleanAllMacros` is not idempotent.** Deleting `@this` from `@th@thisis`
  joins the pieces into a new `@this` (`Macros.CleanIsNotIdempotent`).
- **The nearest server is chosen by substring containment.** The class
  comment asks for an instance "running somewhere in the path of the
  project" (src/main/kotlin/com/hunterstich/idea/jetbridge/provider/OpenCodeProvider.kt:18-19),
  but the test is `filePath.contains(directory)`, not a path-prefix test, so
  a directory that occurs anywhere inside the file path qualifies. Among the
  servers that contain the file, the longest directory wins and ties go to
  discovery order.
- **`prompt` ignores the result of `sendPromptAsync`.** A non-2xx status or a
  transport failure publishes no error.
- **When the event stream ends, only the collector job completes.** The server
  and session stay bound, so `isConnected` turns false and the next prompt
  reconnects.
- **One uncaught exception disables the provider.** The scope is
  `CoroutineScope(Dispatchers.IO)`, whose job is a plain `Job`, so a failing
  child cancels it. Two exceptions escape: one from discovery inside
  `reconnect` (for instance when `pgrep` cannot be started), and one from
  opening the event stream in the collector. After either, every later
  `prompt`, `reconnect` and launch in `connect` is skipped
  (`OpenCodeProvider.FailedDiscoverySilencesProvider`,
  `OpenCodeProvider.CollectorFailureSilencesPrompts`). `prompt` catches its
  own exceptions and does not cancel the scope.
- **`getRelativePath` compares strings, not path components.**
  `/ws/app2/x.kt` under `/ws/app` gives `2/x.kt`.

## Model

| member | source | states |
|---|---|---|
| Text.IndexOf | src/main/kotlin/com/hunterstich/idea/jetbridge/PromptDialog.kt:213-222 | the first index at or after `from` where the pattern occurs, no occurrence before it; -1 exactly when there is none |
| Text.IndexOfFirst | src/main/kotlin/com/hunterstich/idea/jetbridge/PromptDialog.kt:213-222 | an occurrence with none before it is what the search from 0 returns |
| Text.ReplaceAll | src/main/kotlin/com/hunterstich/idea/jetbridge/Macros.kt:35-36 | text without the pattern is unchanged; a replacement no longer than the pattern never lengthens the text, and a shorter one shortens text that contains it (the leftmost-first step is `Text.ReplaceLeftmost`) |
| Text.ReplaceLeftmost | src/main/kotlin/com/hunterstich/idea/jetbridge/Macros.kt:35-36 | replacement works left to right: when the first occurrence is at the end of `a`, the result is `a`, the replacement, then `b` replaced on its own, so the search resumes after the match |
| Text.ReplaceLone | src/main/kotlin/com/hunterstich/idea/jetbridge/Macros.kt:35-36 | a pattern whose first character occurs nowhere else is replaced exactly once, with everything around it kept |
| Text.Trim | src/main/kotlin/com/hunterstich/idea/jetbridge/Macros.kt:64 | the result is a contiguous part of the input, starts and ends with non-whitespace, and only whitespace was cut on either side |
| Text.TrimIdentity | src/main/kotlin/com/hunterstich/idea/jetbridge/Macros.kt:64 | text without whitespace at either end is returned unchanged |
| Text.TrimSkipsLeadingSpace | src/main/kotlin/com/hunterstich/idea/jetbridge/Macros.kt:64 | a leading whitespace character does not change the trimmed text |
| ContextUtils.CoerceIn | src/main/kotlin/com/hunterstich/idea/jetbridge/utils/ContextUtils.kt:30 | the result lies in `[lo, hi]`; it is `x` when `x` is inside and the nearer bound otherwise |
| ContextUtils.Clamp | src/main/kotlin/com/hunterstich/idea/jetbridge/utils/ContextUtils.kt:29-34 | an offset is clamped into `[0, textLength]`; in-range offsets are kept |
| ContextUtils.Describe | src/main/kotlin/com/hunterstich/idea/jetbridge/utils/ContextUtils.kt:39-48 | the description starts with `L` and a digit; a caret description is `L` followed by digits only; a selection description has `:` right after the start line number (read back by `ContextUtils.DescribeRoundTrip`) |
| ContextUtils.CaptureContextSnapshot | src/main/kotlin/com/hunterstich/idea/jetbridge/utils/ContextUtils.kt:17-61 | project path, file path and `hasSelection` are copied; the four numbers are the clamped selection ends (or the clamped caret) converted and shifted to 1-based, so each is at least 1; without a selection start equals end; the description is `Describe` of exactly these numbers, so it parses back to them |
| ContextUtils.DescribeRoundTrip | src/main/kotlin/com/hunterstich/idea/jetbridge/utils/ContextUtils.kt:39-48 | parsing a rendered description recovers the line/column numbers it was rendered from, in both shapes |
| ContextUtils.DescribeHasColumnIffSelection | src/main/kotlin/com/hunterstich/idea/jetbridge/utils/ContextUtils.kt:39-48 | the description has a column part exactly when there is a selection |
| Macros.RelativePath | src/main/kotlin/com/hunterstich/idea/jetbridge/Macros.kt:67-76 | a path not starting with the root comes back unchanged; the result is never longer than the path |
| Macros.RelativePathIsSuffix | src/main/kotlin/com/hunterstich/idea/jetbridge/Macros.kt:69-73 | the result is a suffix of the full path; when the root is a prefix, what lies between root and result is nothing, `/`, `\` or `/\` |
| Macros.DropSeparators | src/main/kotlin/com/hunterstich/idea/jetbridge/Macros.kt:72 | a leading `/\` loses both characters; otherwise a leading `/` or `\` loses one; otherwise the text is kept: at most one `/` and then at most one `\` go, and a second `/` stays |
| Macros.RelativePathOfChild | src/main/kotlin/com/hunterstich/idea/jetbridge/Macros.kt:67-76 | a child written after the root and one droppable separator is returned exactly |
| Macros.RelativePathExample | src/main/kotlin/com/hunterstich/idea/jetbridge/Macros.kt:67-76 | `/root/project/sub/file.kt` under `/root/project` is `sub/file.kt` |
| Macros.RelativePathIsNotComponentWise | src/main/kotlin/com/hunterstich/idea/jetbridge/Macros.kt:69-71 | the prefix test is by characters: any sibling directory whose name extends the root (`/ws/app2` beside `/ws/app`) matches, and its extra characters stay in front of the relative path |
| Macros.RelativePathKeepsSecondSlash | src/main/kotlin/com/hunterstich/idea/jetbridge/Macros.kt:71-72 | only one `/` is removed: `<root>//t` gives `/t` |
| Macros.ExpandInlineMacros | src/main/kotlin/com/hunterstich/idea/jetbridge/Macros.kt:23-54 | without a file path, or when none of `@this`, `@these`, `@file` occurs, the text is unchanged |
| Macros.ExpandIsSequentialReplacement | src/main/kotlin/com/hunterstich/idea/jetbridge/Macros.kt:28-43 | with a file path, expansion equals replacing every `@this`, then every `@these`, with `@<rel> <desc>`, then every `@file` of that result with `@<rel>` |
| Macros.FileStepRewritesSelectionValue | src/main/kotlin/com/hunterstich/idea/jetbridge/Macros.kt:35-43 | order effect: for a file `file<x>` directly under the root, `@this` expands to `@file<x><x> <desc>` because the `@file` step rewrites the value `@this` produced |
| Macros.AgentEnd | src/main/kotlin/com/hunterstich/idea/jetbridge/Macros.kt:20 | the greedy `\w+` after `@a:` is non-empty, all word characters, and not followed by one |
| Macros.FindAgent | src/main/kotlin/com/hunterstich/idea/jetbridge/Macros.kt:18-21 | the leftmost `@a:\w+` match at or after `from`, no match before it; none exactly when nothing matches |
| Macros.RemoveAgentsFrom | src/main/kotlin/com/hunterstich/idea/jetbridge/Macros.kt:61-63 | deleting the matches never lengthens the text; text without a match is kept (that exactly the matched ranges go is `Macros.RemoveAgentsIsDeletion`) |
| Macros.AgentMatchesFrom | src/main/kotlin/com/hunterstich/idea/jetbridge/PromptDialog.kt:226-236 | every listed range is a match `[start, greedy end)`, the ranges are in order without overlap, and every match start at or after `from` is listed with its greedy end |
| Macros.AgentMatchesDisjoint | src/main/kotlin/com/hunterstich/idea/jetbridge/Macros.kt:20 | a later `@a:\w+` match starts at or after the greedy end of an earlier one, so matches never overlap |
| Macros.RemoveAgentsIsDeletion | src/main/kotlin/com/hunterstich/idea/jetbridge/Macros.kt:61-63 | removing the selectors deletes exactly the ranges `AgentMatchesFrom` lists and keeps every gap between them, in order |
| Macros.RemoveLiterals | src/main/kotlin/com/hunterstich/idea/jetbridge/Macros.kt:58-60 | deleting literal tokens never lengthens the text; text with none of them is kept (a lone token is deleted by `Macros.RemoveLiteralsLone`) |
| Macros.RemoveLiteralsLone | src/main/kotlin/com/hunterstich/idea/jetbridge/Macros.kt:58-60 | in text whose only `@` leads one token `m`, removing the listed literals deletes `m` exactly when it is listed and keeps everything else |
| Macros.CleanAllMacros | src/main/kotlin/com/hunterstich/idea/jetbridge/Macros.kt:56-65 | the cleaned text is never longer than the input and has no whitespace at either end (what it deletes is stated by `Macros.CleanRemovesLoneMacro` and `Macros.CleanRemovesLoneSelector`) |
| Macros.CleanRemovesLoneMacro | src/main/kotlin/com/hunterstich/idea/jetbridge/Macros.kt:56-65 | a single literal macro in `@`-free text is removed and the rest is trimmed: `a + m + b` cleans to `trim(a + b)` |
| Macros.CleanRemovesLoneSelector | src/main/kotlin/com/hunterstich/idea/jetbridge/Macros.kt:56-65 | a single `@a:<word>` selector not followed by a word character is removed whole and the rest trimmed |
| Macros.CleanWithoutMacrosOnlyTrims | src/main/kotlin/com/hunterstich/idea/jetbridge/Macros.kt:56-65 | text with no literal token and no agent selector is only trimmed |
| Macros.CleanKeepsFileMention | src/test/kotlin/com/hunterstich/idea/jetbridge/MacrosTest.kt:90-94 | `@README.md` comes back unchanged from cleaning |
| Macros.CleanIsNotIdempotent | src/main/kotlin/com/hunterstich/idea/jetbridge/Macros.kt:58-60 | `@th@thisis` cleans to `@this`, which cleans to the empty text |
| OpenCodeProvider.ExtractAgent | src/main/kotlin/com/hunterstich/idea/jetbridge/provider/OpenCodeProvider.kt:94-100 | with `@a:` present: the word of the first `@a:\w+` match, or none exactly when nothing matches; otherwise `build` if `@build` occurs, else `plan`; a chosen agent is a non-empty word |
| OpenCodeProvider.LeadingSelectorNamesAgent | src/main/kotlin/com/hunterstich/idea/jetbridge/provider/OpenCodeProvider.kt:96 | a word right after a leading `@a:` is the agent |
| OpenCodeProvider.ExplicitAgentExample | src/main/kotlin/com/hunterstich/idea/jetbridge/provider/OpenCodeProvider.kt:96 | `@a:refactor please fix` selects `refactor` |
| OpenCodeProvider.DefaultAgentExamples | src/main/kotlin/com/hunterstich/idea/jetbridge/provider/OpenCodeProvider.kt:97-98 | `@build fix` selects `build`; `fix it` selects `plan` |
| OpenCodeProvider.DanglingSelectorSelectsNothing | src/main/kotlin/com/hunterstich/idea/jetbridge/provider/OpenCodeProvider.kt:95-96 | an `@a:` at the front followed by a non-empty rest that holds no `:` and does not start with a word character selects no agent, even when `@build` follows |
| OpenCodeProvider.DanglingSelectorExample | src/main/kotlin/com/hunterstich/idea/jetbridge/provider/OpenCodeProvider.kt:95-96 | `@a: @build` selects no agent |
| OpenCodeProvider.ConnectedIffCollecting | src/main/kotlin/com/hunterstich/idea/jetbridge/provider/OpenCodeProvider.kt:33-34 | in a consistent state, connected exactly while the collector is active |
| OpenCodeProvider.ConnectionLifecycle | src/main/kotlin/com/hunterstich/idea/jetbridge/provider/OpenCodeProvider.kt:30-34 | `isConnected` and `connectionDesc` over a life: fresh is disconnected and `none`; after `connect` the title, connected exactly while the scope lives; after a disposal disconnected and `none`; after the stream ends disconnected with the title kept |
| OpenCodeProvider.IsConnected | src/main/kotlin/com/hunterstich/idea/jetbridge/provider/OpenCodeProvider.kt:32-33 | `isConnected`; what it means across operations is stated by `OpenCodeProvider.ConnectionLifecycle`, and in consistent states by `OpenCodeProvider.ConnectedIffCollecting` |
| OpenCodeProvider.ConnectionDesc | src/main/kotlin/com/hunterstich/idea/jetbridge/provider/OpenCodeProvider.kt:29-30 | `connectionDesc`; its values across a life are stated by `OpenCodeProvider.ConnectionLifecycle` |
| OpenCodeProvider.FirstWhere | src/main/kotlin/com/hunterstich/idea/jetbridge/provider/OpenCodeProvider.kt:111-124 | `firstOrNull`: the first element satisfying the predicate, none before it; none exactly when no element does (used for the session with the id and for the first server whose listing holds it) |
| OpenCodeProvider.ServerWithAddress | src/main/kotlin/com/hunterstich/idea/jetbridge/provider/OpenCodeProvider.kt:107 | the first server with the address, none before it; none exactly when no server has it |
| OpenCodeProvider.SessionOn | src/main/kotlin/com/hunterstich/idea/jetbridge/provider/OpenCodeProvider.kt:109-111 | a session is found exactly when the listing succeeds and holds that id, and it has that id |
| OpenCodeProvider.FindSavedConnection | src/main/kotlin/com/hunterstich/idea/jetbridge/provider/OpenCodeProvider.kt:102-126 | the first server with the saved address wins if it lists the session; otherwise the first server in order that lists it; none exactly when no server lists it; the pair found is listed and has the saved id |
| OpenCodeProvider.NearestFrom | src/main/kotlin/com/hunterstich/idea/jetbridge/provider/OpenCodeProvider.kt:149-151 | among servers whose directory occurs in the path, one with the longest directory, earlier servers strictly shorter; none exactly when no directory occurs |
| OpenCodeProvider.EnclosesAnywhere | src/main/kotlin/com/hunterstich/idea/jetbridge/provider/OpenCodeProvider.kt:151 | a server encloses every path holding its directory anywhere, not only as a prefix |
| OpenCodeProvider.LongerDirectoryDoesNotEnclose | src/main/kotlin/com/hunterstich/idea/jetbridge/provider/OpenCodeProvider.kt:151 | a directory longer than the path never encloses it |
| OpenCodeProvider.Encloses | src/main/kotlin/com/hunterstich/idea/jetbridge/provider/OpenCodeProvider.kt:151 | `filePath.contains(directory)`; its meaning is stated by `OpenCodeProvider.EnclosesAnywhere` and `OpenCodeProvider.LongerDirectoryDoesNotEnclose` |
| OpenCodeProvider.NearestServer | src/main/kotlin/com/hunterstich/idea/jetbridge/provider/OpenCodeProvider.kt:144-152 | without a file path the first server; with one, an enclosing server of maximal directory length, the first such in discovery order; none exactly when none encloses |
| OpenCodeProvider.LatestFrom | src/main/kotlin/com/hunterstich/idea/jetbridge/provider/OpenCodeProvider.kt:156 | the first session with the maximal `updated` time; none only for an empty list |
| OpenCodeProvider.MostRecentSession | src/main/kotlin/com/hunterstich/idea/jetbridge/provider/OpenCodeProvider.kt:154-156 | a listed session no older than any listed session; none exactly when the listing fails or is empty |
| OpenCodeProvider.Connect | src/main/kotlin/com/hunterstich/idea/jetbridge/provider/OpenCodeProvider.kt:164-193 | binds server and session and saves the pair; selects the session and cancels an old collector; in a live scope it starts the new collector and then announces, leaving the state connected; in a cancelled scope neither launch runs and the state stays disconnected |
| OpenCodeProvider.EnsureConnected | src/main/kotlin/com/hunterstich/idea/jetbridge/provider/OpenCodeProvider.kt:128-162 | connected means nothing to do; failure changes nothing; an empty discovery is unavailable and a throwing one escapes; a saved pair some server still lists wins; otherwise the nearest server and its most recent session, failing when either is missing |
| OpenCodeProvider.Deliver | src/main/kotlin/com/hunterstich/idea/jetbridge/provider/OpenCodeProvider.kt:173-185 | disposal stops the collector and clears server and session; a question only publishes a notice; other events and a stopped collector change nothing |
| OpenCodeProvider.StreamEnded | src/main/kotlin/com/hunterstich/idea/jetbridge/provider/OpenCodeProvider.kt:172-187 | the collector completes, so the provider is no longer connected, while server and session stay bound |
| OpenCodeProvider.CollectorFailed | src/main/kotlin/com/hunterstich/idea/jetbridge/provider/opencode/OpenCodeApi.kt:133-142 | a running collector that cannot open the stream cancels the scope: the provider is disconnected, server and session stay bound |
| OpenCodeProvider.RunEvents | src/main/kotlin/com/hunterstich/idea/jetbridge/provider/OpenCodeProvider.kt:173-185 | consistency is kept; a stopped collector changes nothing; any disposal leaves the provider disconnected; the effects are exactly one question notice per `question.asked` before the first disposal; without a disposal the state is unchanged |
| OpenCodeProvider.RunEventsAppend | src/main/kotlin/com/hunterstich/idea/jetbridge/provider/OpenCodeProvider.kt:173-185 | delivering `a + b` is delivering `a`, then `b` from where `a` left off, with the effects concatenated |
| OpenCodeProvider.DisposalForcesRediscovery | src/main/kotlin/com/hunterstich/idea/jetbridge/provider/OpenCodeProvider.kt:176-180 | after a disposal the binding is gone, and the next `ensureConnected` rediscovers: it throws exactly when discovery does, and is unavailable when no server is found |
| OpenCodeProvider.PromptRequestFor | src/main/kotlin/com/hunterstich/idea/jetbridge/provider/OpenCodeProvider.kt:65-76 | macros expand against the server's directory; the agent comes from the expanded text and the text sent is that text cleaned; the URL parses back to the bound server's address and session id |
| OpenCodeProvider.SelectorIsReadBeforeCleaning | src/main/kotlin/com/hunterstich/idea/jetbridge/provider/OpenCodeProvider.kt:68-69 | the agent is read before cleaning: `@a:<w> <rest>` sends agent `w` with the text `trim(rest)`, the selector gone |
| OpenCodeProvider.BuildDirectorySwitchesAgent | src/main/kotlin/com/hunterstich/idea/jetbridge/provider/OpenCodeProvider.kt:65-68 | the agent is read after expansion: `@this` alone selects `plan`, but for a file under an `@build` directory of the server the expanded text selects `build` |
| OpenCodeProvider.PromptAfter | src/main/kotlin/com/hunterstich/idea/jetbridge/provider/OpenCodeProvider.kt:48-84 | exactly one effect is appended: no instance gives one error, an exception another; when ready, the request is sent unless its URL is rejected, which is the exception error |
| OpenCodeProvider.Prompt | src/main/kotlin/com/hunterstich/idea/jetbridge/provider/OpenCodeProvider.kt:44-86 | in a cancelled scope nothing happens; otherwise ensure-connected then send, with at least one effect; consistency is kept; a send happens only while connected; an already connected provider changes no state and has exactly one effect, the send when the URL is accepted and the prompt-failed error otherwise |
| OpenCodeProvider.Reconnect | src/main/kotlin/com/hunterstich/idea/jetbridge/provider/OpenCodeProvider.kt:36-42 | in a cancelled scope nothing happens; otherwise the state `ensureConnected` reaches, with one extra error exactly when no server or session is available, and a throwing discovery cancels the scope and publishes nothing; nothing happens when already connected |
| OpenCodeProvider.FailedDiscoverySilencesProvider | src/main/kotlin/com/hunterstich/idea/jetbridge/provider/OpenCodeProvider.kt:23-41 | after a `reconnect` whose discovery throws, every later `prompt` and `reconnect` does nothing, whatever servers then run |
| OpenCodeProvider.CollectorFailureSilencesPrompts | src/main/kotlin/com/hunterstich/idea/jetbridge/provider/OpenCodeProvider.kt:23-49 | after the collector fails to open the stream the provider is disconnected and every later `prompt` does nothing |
| OpenCodeApi.BuildPromptRequest | src/main/kotlin/com/hunterstich/idea/jetbridge/provider/opencode/OpenCodeApi.kt:51-61 | one text part holding the prompt, the agent passed through, JSON content, and a URL that parses back to the address and session id when neither holds `/` |
| OpenCodeApi.PromptUrlParts | src/main/kotlin/com/hunterstich/idea/jetbridge/provider/opencode/OpenCodeApi.kt:58 | a parsed URL is exactly `http://<address>/session/<id>/prompt_async` with no `/` in either part |
| OpenCodeApi.PromptUrlRoundTrip | src/main/kotlin/com/hunterstich/idea/jetbridge/provider/opencode/OpenCodeApi.kt:58 | the URL built from a `/`-free address and session id parses back to them |
| OpenCodeApi.SendOutcome | src/main/kotlin/com/hunterstich/idea/jetbridge/provider/opencode/OpenCodeApi.kt:62-66 | success is true exactly for a 2xx status; a failure result exactly when sending threw |
| OpenCodeApi.FindAddress | src/main/kotlin/com/hunterstich/idea/jetbridge/provider/opencode/OpenCodeApi.kt:110 | the leftmost position where `TCP (\d+\.\d+\.\d+\.\d+:\d+)` matches, none before it; none exactly when it matches nowhere |
| OpenCodeApi.ExtractAddress | src/main/kotlin/com/hunterstich/idea/jetbridge/provider/opencode/OpenCodeApi.kt:110 | an address is found exactly when the pattern matches somewhere, and it is non-empty |
| OpenCodeApi.ExtractAfterFirstTcp | src/main/kotlin/com/hunterstich/idea/jetbridge/provider/opencode/OpenCodeApi.kt:107-110 | a line with no `T` before `TCP <address group>` passes the `TCP` filter and yields exactly that group |
| OpenCodeApi.ParseAddresses | src/main/kotlin/com/hunterstich/idea/jetbridge/provider/opencode/OpenCodeApi.kt:107-111 | at most one address per line, and the address of every `TCP` line that has one is included |
| OpenCodeApi.ParseAddressesSound | src/main/kotlin/com/hunterstich/idea/jetbridge/provider/opencode/OpenCodeApi.kt:107-111 | every parsed address comes from a line that contains `TCP` and yields it |
| OpenCodeApi.ParseAddressesOfLine | src/main/kotlin/com/hunterstich/idea/jetbridge/provider/opencode/OpenCodeApi.kt:107-111 | one line yields its address exactly when it contains `TCP` and the pattern matches, else nothing |
| OpenCodeApi.ParseAddressesAppend | src/main/kotlin/com/hunterstich/idea/jetbridge/provider/opencode/OpenCodeApi.kt:107-111 | parsing concatenated outputs gives the concatenated addresses, in order |
| OpenCodeApi.ProbeServers | src/main/kotlin/com/hunterstich/idea/jetbridge/provider/opencode/OpenCodeApi.kt:112-114 | each server kept has a discovered address and the path its probe returned, and every address whose probe succeeds is kept |
| OpenCodeApi.ProbeServersOfAddress | src/main/kotlin/com/hunterstich/idea/jetbridge/provider/opencode/OpenCodeApi.kt:112-114 | one address becomes one server exactly when its probe succeeds |
| OpenCodeApi.ProbeServersAppend | src/main/kotlin/com/hunterstich/idea/jetbridge/provider/opencode/OpenCodeApi.kt:112-114 | probing preserves the relative order of the addresses that survive |
| OpenCodeApi.GetServers | src/main/kotlin/com/hunterstich/idea/jetbridge/provider/opencode/OpenCodeApi.kt:80-117 | no pids means no servers; every server has an address parsed from the `lsof` output and a successful probe; with pids, every parsed address whose probe succeeds becomes a server |
| OpenCodeApi.LsofLines | src/main/kotlin/com/hunterstich/idea/jetbridge/provider/opencode/OpenCodeApi.kt:93-105 | every output line of every pid is collected, and every collected line is some pid's output |
| OpenCodeApi.LsofSampleLine | src/test/kotlin/com/hunterstich/ideavim/jetbridge/OpenCodeProviderTest.kt:10-25 | the sample `lsof` line contains `TCP` and yields `127.0.0.1:3000` |
| OpenCodeApi.LiveReads | src/main/kotlin/com/hunterstich/idea/jetbridge/provider/opencode/OpenCodeApi.kt:143-149 | the lines read before the first end of input or read failure, all of them lines; nothing when the response code is -1 |
| OpenCodeApi.Payloads | src/main/kotlin/com/hunterstich/idea/jetbridge/provider/opencode/OpenCodeApi.kt:150-153 | at most one payload per line; which lines contribute what is stated by `OpenCodeApi.PayloadsMembers` |
| OpenCodeApi.PayloadsMembers | src/main/kotlin/com/hunterstich/idea/jetbridge/provider/opencode/OpenCodeApi.kt:150-153 | every `data: ` line contributes its text after the prefix, and every payload comes from such a line |
| OpenCodeApi.DecodeAll | src/main/kotlin/com/hunterstich/idea/jetbridge/provider/opencode/OpenCodeApi.kt:154-159 | at most one event per payload; which payloads contribute what is stated by `OpenCodeApi.DecodeAllMembers`, and order by `OpenCodeApi.DecodeAllAppend` |
| OpenCodeApi.DecodeAllMembers | src/main/kotlin/com/hunterstich/idea/jetbridge/provider/opencode/OpenCodeApi.kt:154-159 | every payload that decodes contributes its event, and every event comes from a payload decoding to it |
| OpenCodeApi.CollectEvents | src/main/kotlin/com/hunterstich/idea/jetbridge/provider/opencode/OpenCodeApi.kt:133-168 | the events are the decodable payloads of the `data: ` lines read before the stream stops, in line order; other lines and bad payloads are skipped |
| OpenCodeApi.DecodeAllAppend | src/main/kotlin/com/hunterstich/idea/jetbridge/provider/opencode/OpenCodeApi.kt:152-159 | decoding is payload by payload, so events keep line order |
| JetbridgeSettings.AvailableProvider.DisplayName | src/main/kotlin/com/hunterstich/idea/jetbridge/JetbridgeSettings.kt:39-41 | a provider's display name maps back to that provider |
| JetbridgeSettings.FromDisplayName | src/main/kotlin/com/hunterstich/idea/jetbridge/JetbridgeSettings.kt:44-49 | `gemini-cli` gives GeminiCli and every other name gives OpenCode |
| JetbridgeSettings.DisplayNamesDistinct | src/main/kotlin/com/hunterstich/idea/jetbridge/JetbridgeSettings.kt:39-41 | two providers share a display name only if they are the same |
| JetbridgeSettings.DefaultSettings | src/main/kotlin/com/hunterstich/idea/jetbridge/JetbridgeSettings.kt:18-20 | a fresh state selects the provider named `opencode` |
| JetbridgeSettings.GetProvider | src/main/kotlin/com/hunterstich/idea/jetbridge/JetbridgeSettings.kt:53-62 | the returned object is of the selected kind and is cached; an object of the selected kind is reused and nothing changes; otherwise exactly one new object, distinct from the old one, is created |
| JetbridgeSettings.GetProviderIsStable | src/main/kotlin/com/hunterstich/idea/jetbridge/JetbridgeSettings.kt:56-59 | reading the getter again under the same setting returns the same object |
| JetbridgeSettings.CreatedOncePerKindChange | src/main/kotlin/com/hunterstich/idea/jetbridge/JetbridgeSettings.kt:53-62 | over a run of reads, objects are created exactly as often as the selected kind changes, and the cached object has the last selected kind |
| PromptDialog.NoSelfOverlap | src/main/kotlin/com/hunterstich/idea/jetbridge/PromptDialog.kt:212-224 | two occurrences of a pattern whose only `@` leads it are at least its length apart |
| PromptDialog.AllMacrosSingleLeadingAt | src/main/kotlin/com/hunterstich/idea/jetbridge/Macros.kt:8-16 | every literal macro has exactly one `@`, at its front |
| PromptDialog.LiteralRanges | src/main/kotlin/com/hunterstich/idea/jetbridge/PromptDialog.kt:212-224 | every range lies in the text and spans an occurrence of the macro; the ranges increase without overlap; every occurrence is covered, and for a macro with a single leading `@` every occurrence starts a range |
| PromptDialog.CoverageStep | src/main/kotlin/com/hunterstich/idea/jetbridge/PromptDialog.kt:213-222 | resuming the search after a match skips only occurrences that overlap the match |
| PromptDialog.CoveredAreStarts | src/main/kotlin/com/hunterstich/idea/jetbridge/PromptDialog.kt:212-224 | when occurrences cannot overlap, every covered occurrence starts a range |
| PromptDialog.HighlightMacros | src/main/kotlin/com/hunterstich/idea/jetbridge/PromptDialog.kt:205-237 | every highlight is a literal macro or an `@a:\w+` match; every occurrence of every macro and every agent match is highlighted |
| PromptDialog.VimCommand | src/main/kotlin/com/hunterstich/idea/jetbridge/PromptDialog.kt:164-200 | only an Enter press on this dialog's `:` line with IdeaVim enabled is handled; it cancels exactly for `q` or `Q` after trimming, submits exactly for `wq` in any letter case, and is otherwise not consumed |
| PromptDialog.LowercaseIsQuit | src/main/kotlin/com/hunterstich/idea/jetbridge/PromptDialog.kt:179-180 | text lower-cases to `q` exactly when it is `q` or `Q` |
| PromptDialog.LowercaseIsWriteQuit | src/main/kotlin/com/hunterstich/idea/jetbridge/PromptDialog.kt:179-186 | text lower-cases to `wq` exactly when it is `wq` in some letter case |
| PromptDialog.CancelAction | src/main/kotlin/com/hunterstich/idea/jetbridge/PromptDialog.kt:127-161 | Escape closes the dialog exactly when IdeaVim is off, the editor is missing, vim is in normal mode, or asking vim throws; otherwise vim gets the key and returns to normal mode |
| PromptDialog.SecondEscapeCloses | src/main/kotlin/com/hunterstich/idea/jetbridge/PromptDialog.kt:135-156 | at most two Escapes close the dialog |

## Left out

- Process and network I/O: `pgrep`, `lsof`, `HttpClient` and `HttpURLConnection`. They are inputs: pids, `lsof` lines, probe and session-listing functions, and a sequence of reads.
- JSON encoding and decoding (kotlinx.serialization). Decoding is a partial function parameter, and the encoder's handling of `null` and defaults is not modelled.
- Coroutines, dispatcher hops, `runReadAction` and the event bus. Effects are an ordered list. A collector's liveness is a boolean, and so is the liveness of the provider's scope. The status announcement launched by `connect` is listed after the collector start, although in the source it runs concurrently.
- Offsets and lengths: Dafny strings count Unicode scalar values, while Kotlin strings, editor offsets and `directory.length` count UTF-16 code units. Outside the Basic Multilingual Plane the numbers differ: in `😀@this` the source highlights `@this` at `[2, 7)`, the model at `[1, 6)`. Nearest-server length comparisons can differ in the same way.
- `connectionDesc` is read by a separately launched coroutine. The model reads it from the state right after `connect`.
- `OpenCodeApi.selectSession` is not part of this model's sources. It is an opaque `SelectSession` effect.
- The `openCodeLastAddress` / `openCodeLastSessionId` settings fields are not declared in the settings class. They are a separate `Saved` record.
- `getSessions` is a function from address to a result. Its request URI is not modelled.
- OpenCodeApi.LiveReads: the connection's response code is one constant for the whole stream, not re-read on every line.
- OpenCodeApi.ExtractAddress: the contract states that a match exists and the address is non-empty. It does not state the exact substring in general. That substring is proved by `OpenCodeApi.ExtractAfterFirstTcp` for any line with no `T` before a `TCP ` that is followed by an address group, and for the sample `lsof` line.
- OpenCodeApi.LsofLines: the `lsof` arguments are not modelled; only each pid's output lines are.
- PromptDialog.CancelAction: an exception from IdeaVim is assumed to happen before vim changes mode.
- Swing and IntelliJ UI: dialog construction, editor settings, text attributes, the Enter shortcut and its registration.
- The test at `MacrosTest.kt:76-88` expects a 0-based `L0`, which contradicts the 1-based numbering of the snapshot. It calls an older signature, and the model follows the snapshot code.
- `@buffer` and `@dir` have no expansion in the source. They are only removed by cleaning and highlighted.
- The Gemini CLI provider, older plugin iterations, the actions, the settings UI and the build configuration.
