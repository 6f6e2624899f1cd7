# switch-ssh-go, modelled in Dafny

switch-ssh-go drives network switches (Huawei, H3C, Cisco) over an SSH
shell.  The core it relies on has two parts, and this project models both.

- **`filterResult`** (`ssh.go`). This cleans the text captured after a batch of commands.
  1. It splits the capture at newlines.
  2. It deletes every `" \b"` pair from each line, then every `" ESC[1D"` cursor-left sequence.
  3. It looks for the first cleaned line that holds the first command, and records the prompt in front of it.
  4. From that line on, it keeps the lines that pass a prompt-based rule, each followed by a newline.
  5. If the command never shows up, the capture comes back unchanged.
- **The session logic of `SSHSession`** (`ssh_session.go`):
  - the two read loops `ReadChannelTiming` and `ReadChannelExpect`;
  - `WriteChannel`;
  - `GetSSHBrand`, which is the vendor classifier plus its cache;
  - `CheckSelf`.

The output channel is a finite sequence of poll outcomes. `Some(chunk)` means a chunk was waiting at that turn of the loop; `None` means the channel was empty.

## Files

- `text.dfy`, module `Options`: the `Option` datatype.
- `text.dfy`, module `Text`: the Go string operations the core uses, over `seq<char>`.
  - `IndexOf` and `Contains`.
  - `RemoveAll`, which is `strings.Replace(s, p, "", -1)`.
  - `Split` and `Join`.
  - `Terminated`, which puts a separator after every piece.
  - `TrimSpace` and `ToLower`.
  - Lemmas for these: the split/join round trips, and how `Terminated` splits back.
- `ssh.dfy`, module `Ssh`. It holds the vendor constants and `FilterResult`, which is the source's loop written as a left fold of `Step`. It also holds a second, phase-by-phase description of the filter, built from these pieces:
  - `FirstMatch`;
  - `CleanLines`;
  - `KeepAfter`, the keep rule as a list;
  - `Emitted`.

  The lemmas connect the two descriptions.
- `channel.dfy`, module `Channel`:
  - the poll model;
  - `Timing` / `ReadChannelTiming` and `Expecting` / `ReadChannelExpect`;
  - where each read stops, and how the two reads relate.
- `ssh_session.dfy`, module `SshSession`:
  - the `Session` value, which holds the cached brand, the commands written and the unread output;
  - `WriteChannel` and the bytes it puts on the wire;
  - `Classify` and `GetSSHBrand`;
  - `CheckSelf`.

### How the keep rule works

The keep rule follows the code at `ssh.go:110-123`. Once the command has been seen, a later line is kept in two cases:

- when no prompt was recorded;
- when deleting every copy of the prompt from the line leaves something.

Otherwise a line is kept only if it contains the command, and then it also records a new prompt.

So, once a non-empty prompt is recorded, two kinds of line are dropped, unless they hold the command:
- an empty line;
- a line made only of copies of the prompt.

The source's own comment at `ssh.go:109` says the condition was meant to replace the prompt but does not take effect. The model does what the code does (`Ssh.BarePromptIff`, `Ssh.FilterEchoOutputPrompt`). Kept lines are not edited: the prompt is never cut out of them.

## Model

| member | source | states |
|---|---|---|
| `Text.IndexOf` | ssh.go:117 | The index returned is an occurrence of the pattern and no earlier index is one; when nothing is returned the pattern occurs nowhere. |
| `Text.RemoveAll` | ssh.go:101 | Deleting every occurrence never lengthens the string. Deleting a one-character pattern leaves no copy of that character. |
| `Text.RemoveAllFirst` | ssh.go:101 | The text before the first occurrence `IndexOf` finds is kept, that occurrence is dropped, and deletion goes on in the rest. This is the loop `strings.Replace` runs. |
| `Text.RemoveAllAbsent` | ssh.go:105-107 | A string in which the pattern does not occur is returned unchanged, so the `Contains` guard before the second deletion makes no difference. |
| `Text.RemoveAllPrefix` | ssh.go:101 | Text in which no occurrence starts is kept as it stands in front of whatever deletion does to the rest. |
| `Text.ContainsAt` | ssh.go:105 | An occurrence of the pattern at any position makes `Contains` true; with `IndexOf`'s contract this characterises `Contains` both ways. |
| `Text.RemoveAllEmpty` | ssh.go:110 | A string that deleting a non-empty pattern empties is made only of copies of that pattern. |
| `Text.RemoveAllEmptyIff` | ssh.go:110 | For a non-empty pattern, deleting it leaves the empty string exactly when the string is made only of copies of it. |
| `Text.RemoveAllRepeat` | ssh.go:110 | Deleting a pattern from a string made only of copies of it leaves the empty string. |
| `Text.Split` | ssh.go:96 | Splitting gives at least one piece, and no piece holds the separator (`Text.SplitCount`, `Text.JoinSplit` and `Text.SplitJoin` say which pieces). |
| `Text.SplitCount` | ssh.go:96 | Splitting gives one more piece than the string has separators. |
| `Text.JoinSplit` | ssh.go:96 | Joining the pieces of a split with the separator gives back the original string. |
| `Text.SplitJoin` | ssh.go:96 | Splitting the join of separator-free pieces gives back those pieces. |
| `Text.SplitTerminated` | ssh.go:111 | Text built as newline-free pieces, each followed by a newline, splits back into those pieces plus a final empty piece. |
| `Text.TerminatedAppend` | ssh.go:122 | Appending "line + newline" piece by piece is the same as appending the newline-terminated list in one go. |
| `Text.TrimSpace` | ssh.go:119 | The result is the middle of the input, with no white space at either end, and only white space cut off on either side. |
| `Text.ToLower` | ssh_session.go:232 | Lower-casing keeps the length and maps each character on its own, ASCII capitals to small letters and everything else to itself. |
| `Text.ToLowerContains` | ssh_session.go:232-233 | Lower-casing both text and pattern preserves an occurrence. |
| `Text.ContainsChar` | ssh_session.go:207-209 | A one-character pattern occurs exactly when the character is in the text. |
| `Ssh.CleanLine` | ssh.go:101-107 | A cleaned line is the line with all backspace pairs removed and then all cursor-left sequences removed. It is never longer than the raw line. |
| `Ssh.CleanLineUnchanged` | ssh.go:101-107 | A line without backspace or escape characters is not changed by the clean-up. |
| `Ssh.CleanLineNoNewline` | ssh.go:101-107 | Cleaning does not create newlines. |
| `Ssh.Prompt` | ssh.go:117-119 | The recorded prompt has no carriage return and no white space at either end. |
| `Ssh.PromptOfEcho` | ssh.go:115-119 | For an echo `prompt + cmd`, where the prompt is trimmed and free of carriage returns and no occurrence of the command starts inside the prompt (`Ssh.EchoFindsCommand`), the recorded prompt is exactly that prompt. |
| `Ssh.PromptOfShowVersion` | ssh.go:115-119 | The echo "sw1>show version" of the command "show version" records the prompt "sw1>", although the command's first letter also appears in the prompt. |
| `Ssh.Step` | ssh.go:100-123 | One turn either leaves the state as it is or marks the command as seen and appends the cleaned line and a newline; once seen, the command stays seen. |
| `Ssh.LoopNoMatch` | ssh.go:99-127 | If no cleaned line holds the command, the loop ends in its initial state. |
| `Ssh.LoopFirstMatch` | ssh.go:110-123 | The loop skips every line before the first cleaned line holding the command. It keeps that line, records its prompt, and continues from the next line. |
| `Ssh.LoopFound` | ssh.go:110-123 | After the command is seen, the loop appends exactly the lines chosen by the keep rule (`KeepAfter`), each followed by a newline. |
| `Ssh.KeepAfter` | ssh.go:110-123 | The keep rule never yields more lines than it is given (which ones: `Ssh.KeepAfterIsSubseq`, `Ssh.BarePromptIff`, `Ssh.CommandLineKept`). |
| `Ssh.KeepAfterIsSubseq` | ssh.go:110-123 | The keep rule only drops lines. What it keeps is a subsequence of the lines it is given, in their order. |
| `Ssh.EmptyPromptKeepsAll` | ssh.go:110 | With no prompt recorded, every later line is kept. |
| `Ssh.BarePromptDropped` | ssh.go:110-123 | With a prompt recorded, a line made only of copies of it (including the empty line) is dropped unless it holds the command. |
| `Ssh.CommandLineKept` | ssh.go:110-123 | With the command found, a later line that contains it is always kept. When a non-empty prompt is recorded and deleting it from the line leaves nothing, the prompt read off that line replaces the recorded one for the lines after it. Otherwise the recorded prompt stays. |
| `Ssh.CommandLineReplacesPrompt` | ssh.go:110-123 | With prompt `a + b` and command `b`, where `a` is non-empty, trimmed and free of carriage returns and no occurrence of `b` starts inside `a` (`Ssh.EchoFindsCommand`), the lines `a + b` and `a` leave only `a + b`: the first line makes `a` the prompt, which drops the second. |
| `Ssh.BarePromptIff` | ssh.go:110-123 | With a non-empty prompt recorded, a later line without the command is dropped exactly when it is made only of copies of the prompt, and is kept unchanged otherwise. |
| `Ssh.FilterByFirstMatch` | ssh.go:92-131 | For every capture, `FilterResult` is the capture itself when no cleaned line holds the command, and otherwise the lines emitted from the first cleaned line that holds it, each ended by a newline. |
| `Ssh.FilterNotFound` | ssh.go:128-130 | When no cleaned line contains the command, the result is the input, character for character. |
| `Ssh.FilterFound` | ssh.go:96-131 | When the command is found at line k, the result is that cleaned line followed by the kept later lines, each ended with a newline. |
| `Ssh.EmittedShape` | ssh.go:110-123 | The emitted lines are: the matching line first, then a subsequence of the later cleaned lines. There are no more of them than there are lines from the match on, and none holds a newline. |
| `Ssh.FilterFoundShape` | ssh.go:96-131 | When the command is found, the output is non-empty and ends with a newline. Split at newlines, it reads: the matching cleaned line, then later cleaned lines in their original order, then an empty piece. It has no more newlines than there are input lines from the match on. |
| `Ssh.FilterEchoOutputPrompt` | ssh.go:92-131 | For a capture "prompt+cmd, output, prompt" with a non-empty trimmed prompt, a non-empty output line that does not contain the prompt, no newline, carriage return, backspace or escape character in any of the three, and no occurrence of the command starting inside the prompt, the result keeps the echo line and the output line and drops the final bare prompt. |
| `Channel.FirstIdleFrom` | ssh_session.go:325-333 | Returns the first pair of consecutive empty polls at or after a position. Such a pair always exists. |
| `Channel.Timing` | ssh_session.go:315-337 | The timing loop takes at least one poll and returns the chunks it took, concatenated in arrival order. It ends on a second empty poll that directly follows a first, and it does not pass any earlier such pair. |
| `Channel.TimingStop` | ssh_session.go:319-334 | The timing read takes exactly the polls up to and including the first pair of empty polls. Its text is exactly the chunks that arrived before that pair. |
| `Channel.ReadChannelTiming` | ssh_session.go:315-337 | The read takes every poll up to and including the first pair of consecutive empty polls and returns the chunks that arrived before that pair, concatenated in arrival order. |
| `Channel.Expecting` | ssh_session.go:281-307 | The expect loop takes at least one poll. It ends right after a chunk holding an expected string, or on a pair of empty polls, and passes neither kind of stop earlier. |
| `Channel.ExpectText` | ssh_session.go:288-290 | The expect loop returns exactly the chunks it took, concatenated in arrival order, the matching chunk included. |
| `Channel.ReadChannelExpect` | ssh_session.go:281-307 | The read returns the chunks of every poll it took, in arrival order, and stops one poll after the first matching chunk or two polls after the first empty pair, whichever comes first. |
| `Channel.ExpectStop` | ssh_session.go:285-305 | The expect read ends one poll after the first stop if that stop is a matching chunk, and two polls after it if it is an empty pair. |
| `Channel.ExpectKeepsMatch` | ssh_session.go:288-294 | A read that ends on a match has the matching chunk as the last thing appended to its text. |
| `Channel.ExpectEndsOnMatch` | ssh_session.go:285-305 | The expect read ends on a matching chunk exactly when some chunk arriving before the channel first goes quiet holds an expected string. |
| `Channel.ExpectWithoutMatch` | ssh_session.go:281-337 | If no chunk taken by the timing read holds an expected string, the expect read is the same as the timing read. |
| `Channel.ExpectNothing` | ssh_session.go:291 | With no expected strings, `ReadChannelExpect` is `ReadChannelTiming`. |
| `Channel.ExpectPerChunk` | ssh_session.go:292 | An expected string split across two chunks does not end the read early. The same text arriving as one chunk ends it at once. |
| `Channel.MatchesSome` | ssh_session.go:291-295 | The in-order search over the expected strings succeeds exactly when some expected string is in the chunk. |
| `Channel.ConcatAppend` | ssh_session.go:324 | Concatenating the chunks of two lists in turn equals concatenating their join. |
| `Channel.ArrivedSplit` | ssh_session.go:322-324 | The chunks arriving over adjacent ranges of polls are the chunks of the first range followed by those of the second. |
| `SshSession.WriteChannel` | ssh_session.go:268-273 | The wire carries what it carried before, then each new command followed by a newline, in argument order. The brand and the unread output do not change. |
| `SshSession.WireRoundTrip` | ssh_session.go:143-144 | Commands without newlines are recovered in order by splitting the wire at newlines. |
| `SshSession.WriteTwice` | ssh_session.go:268-273 | Two writes put the same bytes on the wire as one write of both lists. |
| `SshSession.Classify` | ssh_session.go:233-242 | The result is one of "", huawei, h3c or cisco. A name is returned only if it occurs in the text. "" is returned exactly when none occurs. Huawei wins whenever it occurs, and h3c beats cisco. |
| `SshSession.GetSSHBrand` | ssh_session.go:220-244 | The returned brand is the stored one, and it is a known value whenever the stored brand is one. A cached brand comes back with the session untouched. Otherwise the probe commands go on the wire, the output is consumed up to the first quiet pair, and the brand is the classifier's verdict on the lower-cased read (so huawei beats h3c beats cisco). A recognised name occurs in the lower-cased read. |
| `SshSession.BrandCached` | ssh_session.go:226-228 | After a brand is recognised, asking again returns the same answer and writes and reads nothing. |
| `SshSession.BrandRetried` | ssh_session.go:233-243 | An unrecognised device stays unknown, and the next call probes again. |
| `SshSession.BrandIgnoresCase` | ssh_session.go:232-236 | A vendor name in any letter case in the read gives a recognised brand. "Huawei" in any case always gives huawei. |
| `SshSession.CheckSelf` | ssh_session.go:198-213 | The check puts one newline command on the wire and leaves the brand alone. |
| `SshSession.InConcat` | ssh_session.go:207-209 | A character is in the concatenation of chunks exactly when it is in one of them. |
| `SshSession.InArrived` | ssh_session.go:322-324 | A chunk is among those arriving over a range of polls exactly when some poll in that range brought it. |
| `SshSession.MarksMatch` | ssh_session.go:206 | A chunk matches the expected strings "#", ">", "]" exactly when it contains one of those characters. |
| `SshSession.MarkInRead` | ssh_session.go:207-209 | The text of a read holds a prompt character exactly when one of the chunks it gathered holds one. |
| `SshSession.CheckSelfMark` | ssh_session.go:207-212 | The verdict is true exactly when the text read holds "#", ">" or "]". |
| `SshSession.CheckSelfAlive` | ssh_session.go:205-212 | The session is alive exactly when the read ended on a chunk holding "#", ">" or "]". Equivalently, it is alive exactly when such a chunk arrived before the channel first went quiet. |

## Left out

- Connection set-up: `createConnection` (`ssh_session.go:71-102`), `NewSSHSession` and `start`. This covers the SSH dial, ciphers, host-key callback, pty request and the login read. These are network calls into a foreign library.
- The `muxShell` goroutines and their channels (`ssh_session.go:109-176`).
  - Commands go straight into the session's list of sent commands.
  - Output arrives as a given poll sequence.
  - The 65 KiB read buffer, blocking sends and scheduling are not modelled.
  - The device is not modelled either: its output is an input to each read, unrelated to what was written.
- Unbounded output. The poll sequence is finite and the channel stays empty after it, so every read ends. The source's read loops (`ssh_session.go:285-305`, `ssh_session.go:320-334`) have no bound and never return while chunks keep arriving.
- `time.Sleep` and the `maxIntervalTime` argument with its float-to-duration truncation. An empty poll stands for "one wait happened"; how long the wait lasts is not modelled.
- `Close`, the `recover` handlers, and `lastUseTime` with its accessors. These are resource teardown, panics and the wall clock.
- `RunCommands`, `RunCommandsWithBrand` and the package-level `GetSSHBrand` (`ssh.go:24-84`). They are glue over a session manager that is not part of this model, including per-key locking.
- `LogDebug`, `LogError` and `IsLogDebug`, which only produce output.
- Go strings are byte sequences; the model's strings are `seq<char>`. The two agree on ASCII text, which is all the constants and patterns of the core use.
- Text.TrimSpace: trims ASCII white space only. Go's `strings.TrimSpace` also trims Unicode white space.
- Text.ToLower: lowers ASCII letters only. Go's `strings.ToLower` also maps other Unicode letters.
- SshSession.CheckSelf: its own contract states only what it writes. Its verdict is characterised in `SshSession.CheckSelfAlive`.
- Ssh.FilterFoundShape: states only that the output's later lines are some of the later cleaned lines, in order. `Ssh.FilterFound` and `Ssh.LoopFound` say exactly which ones.
- Ssh.Step: its own contract gives the shape of one turn, not which lines are kept. `Ssh.LoopFirstMatch` and `Ssh.LoopFound` say that for the whole loop.
- Ssh.KeepAfter: its own contract only bounds the number of lines kept. `Ssh.KeepAfterIsSubseq`, `Ssh.EmptyPromptKeepsAll`, `Ssh.BarePromptIff` and `Ssh.CommandLineKept` say which lines.
- Text.Split: its own contract gives only that there is at least one piece and that no piece holds the separator. `Text.SplitCount` gives the number of pieces, and `Text.JoinSplit` and `Text.SplitJoin` pin the pieces down.
- Text.RemoveAll: its own contract gives only a length bound and the one-character case. `Text.RemoveAllFirst` and `Text.RemoveAllAbsent` give its value one occurrence at a time.
- Ssh.Prompt: its contract states what every recorded prompt looks like, not its exact value. `Ssh.PromptOfEcho` gives the exact value for an echo line `prompt + cmd` in which no occurrence of the command starts inside the prompt. When one does, the prompt is cut at that earlier occurrence, and its value there is not stated.
