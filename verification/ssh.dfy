/** The session-independent part of `ssh.go`: the vendor names and
    `filterResult`, which cuts the echoed command and prompt noise out of the
    text captured from a switch. */
module Ssh {
  import opened Options
  import opened Text

  const HUAWEI: string := "huawei"
  const H3C: string := "h3c"
  const CISCO: string := "cisco"

  /** A space followed by a backspace: how the device erases a character. */
  const Backspace: string := [' ', '\U{08}']

  /** A space followed by the escape sequence ESC [ 1 D (cursor one column
      left), written by one vendor's pager. */
  const CursorLeft: string := [' ', '\U{1B}', '[', '1', 'D']

  /** The per-line clean-up: every backspace pair is deleted, and then every
      cursor-left sequence (the source only rewrites the line when one is
      present, which makes no difference). */
  function CleanLine(line: string): (r: string)
    ensures r == RemoveAll(RemoveAll(line, Backspace), CursorLeft)
    ensures |r| <= |line|
  {
    var a := RemoveAll(line, Backspace);
    if Contains(a, CursorLeft) then RemoveAll(a, CursorLeft)
    else
      RemoveAllAbsent(a, CursorLeft);
      a
  }

  /** The prompt recorded from a line that contains the command: what stands
      before the first occurrence of the command, without carriage returns
      and without surrounding white space. */
  function Prompt(line: string, cmd: string): (p: string)
    requires Contains(line, cmd)
    ensures '\r' !in p
    ensures |p| == 0 || (!IsSpace(p[0]) && !IsSpace(p[|p| - 1]))
  {
    var before := RemoveAll(line[..IndexOf(line, cmd).value], "\r");
    var p := TrimSpace(before);
    NotInSlice(before, LeadingSpace(before), |p|, '\r');
    p
  }

  /** The state of the loop in `filterResult`. */
  datatype Scan = Scan(found: bool, prompt: string, out: string)

  const Start: Scan := Scan(false, "", "")

  /** One turn of the loop over a raw line.  Once the command has been seen,
      a line is kept when there is no prompt or when deleting the prompt from
      it leaves something; otherwise (and before the command has been seen)
      a line is kept only if it contains the command, which records the
      prompt anew. */
  function Step(st: Scan, raw: string, cmd: string): (r: Scan)
    ensures r == st || (r.found && r.out == st.out + CleanLine(raw) + "\n")
    ensures st.found ==> r.found
  {
    var item := CleanLine(raw);
    if st.found && (st.prompt == "" || RemoveAll(item, st.prompt) != "") then
      st.(out := st.out + item + "\n")
    else if Contains(item, cmd) then
      Scan(true, Prompt(item, cmd), st.out + item + "\n")
    else
      st
  }

  /** The loop over all lines. */
  function Loop(st: Scan, lines: seq<string>, cmd: string): Scan
    decreases |lines|
  {
    if |lines| == 0 then st else Loop(Step(st, lines[0], cmd), lines[1..], cmd)
  }

  /** `filterResult(result, firstCmd)`. */
  function FilterResult(result: string, cmd: string): string
  {
    var st := Loop(Start, Split(result, '\n'), cmd);
    if !st.found then result else st.out
  }

  // ---------------------------------------------------------------------
  // A second description of the filter, by phases: find the first cleaned
  // line that holds the command, then apply the keep rule to the lines
  // after it, collecting the kept lines as a list.

  function CleanLines(lines: seq<string>): (r: seq<string>)
    ensures |r| == |lines|
    ensures forall i :: 0 <= i < |lines| ==> r[i] == CleanLine(lines[i])
  {
    if |lines| == 0 then [] else [CleanLine(lines[0])] + CleanLines(lines[1..])
  }

  /** The first line that contains the command. */
  function FirstMatch(lines: seq<string>, cmd: string): (r: Option<nat>)
    ensures r.Some? ==> r.value < |lines| && Contains(lines[r.value], cmd)
    ensures r.Some? ==> forall j :: 0 <= j < r.value ==> !Contains(lines[j], cmd)
    ensures r.None? ==> forall j :: 0 <= j < |lines| ==> !Contains(lines[j], cmd)
  {
    if |lines| == 0 then None
    else if Contains(lines[0], cmd) then Some(0)
    else match FirstMatch(lines[1..], cmd)
      case None => None
      case Some(k) => Some(k + 1)
  }

  /** The keep rule applied to the (cleaned) lines after a match. */
  function KeepAfter(lines: seq<string>, prompt: string, cmd: string): (r: seq<string>)
    ensures |r| <= |lines|
    decreases |lines|
  {
    if |lines| == 0 then []
    else if prompt == "" || RemoveAll(lines[0], prompt) != "" then
      [lines[0]] + KeepAfter(lines[1..], prompt, cmd)
    else if Contains(lines[0], cmd) then
      [lines[0]] + KeepAfter(lines[1..], Prompt(lines[0], cmd), cmd)
    else
      KeepAfter(lines[1..], prompt, cmd)
  }

  /** `a` is `b` with some elements left out, the rest in their order. */
  predicate IsSubseq<T(==)>(a: seq<T>, b: seq<T>)
    decreases |b|
  {
    |a| == 0 || (|b| > 0 && ((a[0] == b[0] && IsSubseq(a[1..], b[1..])) || IsSubseq(a, b[1..])))
  }

  /** A subsequence is no longer than the sequence it is taken from, and
      holds nothing that sequence does not. */
  lemma {:induction false} SubseqBounds<T>(a: seq<T>, b: seq<T>)
    requires IsSubseq(a, b)
    ensures |a| <= |b|
    ensures forall x :: x in a ==> x in b
    decreases |b|
  {
    if |a| > 0 {
      if a[0] == b[0] && IsSubseq(a[1..], b[1..]) {
        SubseqBounds(a[1..], b[1..]);
        assert forall x :: x in a ==> x == a[0] || x in a[1..];
      } else {
        SubseqBounds(a, b[1..]);
      }
    }
  }

  /** The keep rule only drops lines: what it keeps is a subsequence. */
  lemma {:induction false} KeepAfterIsSubseq(lines: seq<string>, prompt: string, cmd: string)
    ensures IsSubseq(KeepAfter(lines, prompt, cmd), lines)
    decreases |lines|
  {
    if |lines| > 0 {
      var kept := KeepAfter(lines, prompt, cmd);
      if prompt == "" || RemoveAll(lines[0], prompt) != "" {
        KeepAfterIsSubseq(lines[1..], prompt, cmd);
        assert kept[1..] == KeepAfter(lines[1..], prompt, cmd);
      } else if Contains(lines[0], cmd) {
        KeepAfterIsSubseq(lines[1..], Prompt(lines[0], cmd), cmd);
        assert kept[1..] == KeepAfter(lines[1..], Prompt(lines[0], cmd), cmd);
      } else {
        KeepAfterIsSubseq(lines[1..], prompt, cmd);
      }
    }
  }

  /** With no prompt recorded every later line is kept. */
  lemma {:induction false} EmptyPromptKeepsAll(lines: seq<string>, cmd: string)
    ensures KeepAfter(lines, "", cmd) == lines
    decreases |lines|
  {
    if |lines| > 0 {
      EmptyPromptKeepsAll(lines[1..], cmd);
      assert lines == [lines[0]] + lines[1..];
    }
  }

  /** With a prompt recorded, a line made of nothing but copies of the prompt
      (the empty line included) is dropped unless it contains the command. */
  lemma BarePromptDropped(prompt: string, n: nat, rest: seq<string>, cmd: string)
    requires prompt != ""
    requires !Contains(Repeat(prompt, n), cmd)
    ensures KeepAfter([Repeat(prompt, n)] + rest, prompt, cmd) == KeepAfter(rest, prompt, cmd)
  {
    assert RepeatOf(Repeat(prompt, n), prompt);
    BarePromptIff(Repeat(prompt, n), rest, prompt, cmd);
  }

  /** With a prompt recorded, a later line without the command is dropped
      exactly when it is made only of copies of the prompt, and is otherwise
      kept as it is. */
  lemma BarePromptIff(line: string, rest: seq<string>, prompt: string, cmd: string)
    requires prompt != "" && !Contains(line, cmd)
    ensures RepeatOf(line, prompt) ==> KeepAfter([line] + rest, prompt, cmd) == KeepAfter(rest, prompt, cmd)
    ensures !RepeatOf(line, prompt) ==> KeepAfter([line] + rest, prompt, cmd) == [line] + KeepAfter(rest, prompt, cmd)
  {
    var ls := [line] + rest;
    assert ls[0] == line && ls[1..] == rest;
    RemoveAllEmptyIff(line, prompt);
    if RemoveAll(line, prompt) == "" {
      assert KeepAfter(ls, prompt, cmd) == KeepAfter(rest, prompt, cmd);
    } else {
      assert KeepAfter(ls, prompt, cmd) == [line] + KeepAfter(rest, prompt, cmd);
    }
  }

  /** A later line that contains the command is always kept.  When deleting
      the recorded prompt from it leaves nothing, the prompt read off that
      line takes the place of the recorded one for the lines after it. */
  lemma CommandLineKept(line: string, rest: seq<string>, prompt: string, cmd: string)
    requires Contains(line, cmd)
    ensures KeepAfter([line] + rest, prompt, cmd)
            == [line] + KeepAfter(rest, if prompt == "" || RemoveAll(line, prompt) != "" then prompt
                                        else Prompt(line, cmd), cmd)
  {
    assert ([line] + rest)[1..] == rest;
  }

  /** When the recorded prompt is itself `a + b` and `b` is the command, the
      line `a + b` is kept and makes `a` the prompt, so a following line `a`
      is dropped as a bare prompt (prompt "ab", command "b", lines "ab" and
      "a" leave only "ab"). */
  lemma CommandLineReplacesPrompt(a: string, b: string)
    requires a != "" && EchoFindsCommand(a, b) && '\r' !in a
    requires !IsSpace(a[0]) && !IsSpace(a[|a| - 1])
    ensures KeepAfter([a + b, a], a + b, b) == [a + b]
  {
    PromptOfEcho(a, b);
    EchoPromptFree(a, b);
    assert Repeat(a + b, 1) == a + b;
    RemoveAllRepeat(a + b, 1);
    assert [a + b] + [a] == [a + b, a];
    CommandLineKept(a + b, [a], a + b, b);
    assert Repeat(a, 1) == a;
    assert [a] + [] == [a];
    BarePromptDropped(a, 1, [], b);
  }

  /** One turn before the command is seen: a line without the command
      changes nothing, a line with it records the prompt and is kept. */
  lemma StepSearching(raw: string, cmd: string)
    ensures var item := CleanLine(raw);
            Step(Start, raw, cmd)
            == if Contains(item, cmd) then Scan(true, Prompt(item, cmd), item + "\n") else Start
  {
  }

  /** Before the command is seen the loop changes nothing. */
  lemma {:induction false} LoopNoMatch(lines: seq<string>, cmd: string)
    requires forall j :: 0 <= j < |lines| ==> !Contains(CleanLine(lines[j]), cmd)
    ensures Loop(Start, lines, cmd) == Start
    decreases |lines|
  {
    if |lines| > 0 {
      StepSearching(lines[0], cmd);
      LoopNoMatch(lines[1..], cmd);
    }
  }

  /** At the first line holding the command the loop records the prompt and
      keeps that line, and carries on from there. */
  lemma {:induction false} LoopFirstMatch(lines: seq<string>, cmd: string, k: nat)
    requires k < |lines| && Contains(CleanLine(lines[k]), cmd)
    requires forall j :: 0 <= j < k ==> !Contains(CleanLine(lines[j]), cmd)
    ensures var item := CleanLine(lines[k]);
            Loop(Start, lines, cmd)
            == Loop(Scan(true, Prompt(item, cmd), item + "\n"), lines[k + 1..], cmd)
    decreases k
  {
    StepSearching(lines[0], cmd);
    if k > 0 {
      LoopFirstMatch(lines[1..], cmd, k - 1);
      assert lines[1..][k..] == lines[k + 1..];
    }
  }

  /** Appending a kept line and then the rest is appending the rest with the
      line in front. */
  lemma KeepLine(out: string, item: string, more: seq<string>)
    ensures out + Terminated([item] + more, '\n') == (out + item + "\n") + Terminated(more, '\n')
  {
    TerminatedCons(item, more, '\n');
  }

  /** After the command is seen the loop appends exactly the lines the keep
      rule keeps. */
  lemma {:induction false} LoopFound(lines: seq<string>, prompt: string, out: string, cmd: string)
    ensures var st := Loop(Scan(true, prompt, out), lines, cmd);
            st.found && st.out == out + Terminated(KeepAfter(CleanLines(lines), prompt, cmd), '\n')
    decreases |lines|
  {
    if |lines| > 0 {
      var cl := CleanLines(lines);
      var item := cl[0];
      assert cl[1..] == CleanLines(lines[1..]);
      var st' := Step(Scan(true, prompt, out), lines[0], cmd);
      if prompt == "" || RemoveAll(item, prompt) != "" {
        LoopFound(lines[1..], prompt, st'.out, cmd);
        KeepLine(out, item, KeepAfter(cl[1..], prompt, cmd));
      } else if Contains(item, cmd) {
        LoopFound(lines[1..], st'.prompt, st'.out, cmd);
        KeepLine(out, item, KeepAfter(cl[1..], st'.prompt, cmd));
      } else {
        LoopFound(lines[1..], prompt, out, cmd);
      }
    }
  }

  /** When no cleaned line contains the command the input comes back
      unchanged, byte for byte. */
  lemma FilterNotFound(result: string, cmd: string)
    requires forall line :: line in Split(result, '\n') ==> !Contains(CleanLine(line), cmd)
    ensures FilterResult(result, cmd) == result
  {
    LoopNoMatch(Split(result, '\n'), cmd);
  }

  /** The lines the filter emits when the `k`-th raw line is the first
      whose cleaned form contains the command: that cleaned line, then those
      the keep rule keeps among the cleaned lines after it. */
  function Emitted(lines: seq<string>, k: nat, cmd: string): seq<string>
    requires k < |lines| && Contains(CleanLine(lines[k]), cmd)
  {
    var item := CleanLine(lines[k]);
    [item] + KeepAfter(CleanLines(lines[k + 1..]), Prompt(item, cmd), cmd)
  }

  /** When the `k`-th line is the first whose cleaned form contains the
      command, the output is the emitted lines, each ended by a newline. */
  lemma FilterFound(result: string, cmd: string, k: nat)
    requires var lines := Split(result, '\n');
             k < |lines| && Contains(CleanLine(lines[k]), cmd)
             && forall j :: 0 <= j < k ==> !Contains(CleanLine(lines[j]), cmd)
    ensures FilterResult(result, cmd) == Terminated(Emitted(Split(result, '\n'), k, cmd), '\n')
  {
    var lines := Split(result, '\n');
    var item := CleanLine(lines[k]);
    var p := Prompt(item, cmd);
    var kept := KeepAfter(CleanLines(lines[k + 1..]), p, cmd);
    LoopFirstMatch(lines, cmd, k);
    LoopFound(lines[k + 1..], p, item + "\n", cmd);
    assert ([item] + kept)[1..] == kept;
  }

  /** The whole filter by phases, for every input: no cleaned line with the
      command gives the capture back, and otherwise the output is the lines
      emitted from the first cleaned line that holds it, each ended by a
      newline. */
  lemma FilterByFirstMatch(result: string, cmd: string)
    ensures var lines := Split(result, '\n');
            FilterResult(result, cmd)
            == match FirstMatch(CleanLines(lines), cmd)
               case None => result
               case Some(k) => Terminated(Emitted(lines, k, cmd), '\n')
  {
    var lines := Split(result, '\n');
    var cl := CleanLines(lines);
    match FirstMatch(cl, cmd)
    case None =>
      forall line | line in lines
        ensures !Contains(CleanLine(line), cmd)
      {
        var j :| 0 <= j < |lines| && lines[j] == line;
        assert cl[j] == CleanLine(line);
      }
      FilterNotFound(result, cmd);
    case Some(k) =>
      FilterFound(result, cmd, k);
  }

  /** A raw line without a newline gives a cleaned line without one. */
  lemma CleanLineNoNewline(line: string)
    requires '\n' !in line
    ensures '\n' !in CleanLine(line)
  {
    RemoveAllKeepsOut(line, Backspace, '\n');
    RemoveAllKeepsOut(RemoveAll(line, Backspace), CursorLeft, '\n');
  }

  /** The emitted lines start with the matching line, keep the order of the
      lines after it, are no more than the lines from the match on, and hold
      no newline when the raw lines hold none. */
  lemma EmittedShape(lines: seq<string>, k: nat, cmd: string)
    requires k < |lines| && Contains(CleanLine(lines[k]), cmd)
    requires forall i :: 0 <= i < |lines| ==> '\n' !in lines[i]
    ensures var e := Emitted(lines, k, cmd);
            && e[0] == CleanLine(lines[k])
            && IsSubseq(e[1..], CleanLines(lines[k + 1..]))
            && |e| <= |lines| - k
            && forall i :: 0 <= i < |e| ==> '\n' !in e[i]
  {
    var item := CleanLine(lines[k]);
    var after := CleanLines(lines[k + 1..]);
    var kept := KeepAfter(after, Prompt(item, cmd), cmd);
    var e := Emitted(lines, k, cmd);
    assert e[1..] == kept;
    KeepAfterIsSubseq(after, Prompt(item, cmd), cmd);
    SubseqBounds(kept, after);
    forall i | 0 <= i < |e| ensures '\n' !in e[i] {
      if i == 0 {
        CleanLineNoNewline(lines[k]);
      } else {
        assert e[i] in after;
        var j :| 0 <= j < |after| && after[j] == e[i];
        CleanLineNoNewline(lines[k + 1 + j]);
      }
    }
  }

  /** The shape of the output when the command is found.  It is not empty
      and ends with a newline; its first line is the first cleaned line that
      holds the command; its other lines are some of the cleaned lines after
      that one, in their original order; so it has no more lines than the
      input has from the matching line on. */
  lemma FilterFoundShape(result: string, cmd: string, k: nat)
    requires var lines := Split(result, '\n');
             k < |lines| && Contains(CleanLine(lines[k]), cmd)
             && forall j :: 0 <= j < k ==> !Contains(CleanLine(lines[j]), cmd)
    ensures var r := FilterResult(result, cmd);
            |r| > 0 && r[|r| - 1] == '\n'
    ensures var r := FilterResult(result, cmd);
            var lines := Split(result, '\n');
            var out := Split(r, '\n');
            && |out| >= 2 && out[0] == CleanLine(lines[k]) && out[|out| - 1] == ""
            && IsSubseq(out[1..|out| - 1], CleanLines(lines[k + 1..]))
            && multiset(r)['\n'] <= |lines| - k
  {
    var lines := Split(result, '\n');
    var e := Emitted(lines, k, cmd);
    var r := FilterResult(result, cmd);
    FilterFound(result, cmd, k);
    TerminatedEnds(e, '\n');
    EmittedShape(lines, k, cmd);
    TerminatedPieces(r, e, '\n');
  }

  /** A line is left alone by the clean-up when it holds neither a
      backspace nor an escape character. */
  lemma CleanLineUnchanged(line: string)
    requires '\U{08}' !in line && '\U{1B}' !in line
    ensures CleanLine(line) == line
  {
    MissingChar(line, Backspace, 1);
    MissingChar(line, CursorLeft, 1);
  }

  /** In the echo `prompt + cmd` the command is first found where it was
      typed: no occurrence of it starts inside the prompt. */
  predicate EchoFindsCommand(prompt: string, cmd: string) {
    forall j :: 0 <= j < |prompt| ==> !OccursAt(prompt + cmd, cmd, j)
  }

  /** A prompt that is already trimmed and carries no carriage return is
      recorded as it stands from the echo `prompt + cmd`, provided the
      command is first found where it was typed. */
  lemma PromptOfEcho(prompt: string, cmd: string)
    requires EchoFindsCommand(prompt, cmd)
    requires '\r' !in prompt
    requires |prompt| == 0 || (!IsSpace(prompt[0]) && !IsSpace(prompt[|prompt| - 1]))
    ensures Contains(prompt + cmd, cmd)
    ensures Prompt(prompt + cmd, cmd) == prompt
  {
    var line := prompt + cmd;
    ContainsAt(line, cmd, |prompt|);
    var idx := IndexOf(line, cmd).value;
    assert idx == |prompt| by {
      assert OccursAt(line, cmd, idx);
      assert !(idx < |prompt|);
    }
    assert line[..idx] == prompt;
    MissingChar(prompt, "\r", 0);
    var t := TrimSpace(prompt);
    if |prompt| > 0 {
      assert LeadingSpace(prompt) == 0;
      assert |t| == |prompt|;
    }
  }

  /** A non-empty prompt in which the command is not first found does not
      contain the command. */
  lemma EchoPromptFree(prompt: string, cmd: string)
    requires prompt != "" && EchoFindsCommand(prompt, cmd)
    ensures !Contains(prompt, cmd)
  {
    if Contains(prompt, cmd) {
      var k := IndexOf(prompt, cmd).value;
      if |cmd| == 0 {
        assert OccursAt(prompt, cmd, 0);
        assert k == 0;
      }
      assert (prompt + cmd)[k..k + |cmd|] == prompt[k..k + |cmd|];
      assert OccursAt(prompt + cmd, cmd, k);
      assert false;
    }
  }

  /** The prompt of a switch session echoing a command. */
  lemma PromptOfShowVersion()
    ensures Contains("sw1>show version", "show version")
    ensures Prompt("sw1>show version", "show version") == "sw1>"
  {
    var prompt, cmd := "sw1>", "show version";
    assert prompt + cmd == "sw1>show version";
    forall j | 0 <= j < |prompt|
      ensures !OccursAt(prompt + cmd, cmd, j)
    {
      var w := (prompt + cmd)[j..j + |cmd|];
      if j == 0 {
        assert w[1] == 'w' != cmd[1];
      } else {
        assert w[0] == prompt[j] != cmd[0];
      }
    }
    PromptOfEcho(prompt, cmd);
  }

  /** The three lines of a capture made of an echoed command, one line of
      output and a closing prompt. */
  lemma EchoLines(prompt: string, cmd: string, output: string)
    requires forall c :: c in ['\n', '\r', '\U{08}', '\U{1B}'] ==> c !in prompt && c !in cmd && c !in output
    ensures Split(prompt + cmd + "\n" + output + "\n" + prompt, '\n') == [prompt + cmd, output, prompt]
  {
    var raw := prompt + cmd + "\n" + output + "\n" + prompt;
    var echo := prompt + cmd;
    var lines := [echo, output, prompt];
    assert lines[1..] == [output, prompt];
    assert [output, prompt][1..] == [prompt];
    assert Join([output, prompt], '\n') == output + "\n" + prompt;
    assert Join(lines, '\n') == echo + "\n" + (output + "\n" + prompt);
    assert Join(lines, '\n') == raw;
    assert '\n' !in echo;
    SplitJoin(lines, '\n');
  }

  /** After the echo, an output line without the prompt is kept and a
      bare prompt line is dropped. */
  lemma EchoKeep(prompt: string, cmd: string, output: string)
    requires prompt != "" && EchoFindsCommand(prompt, cmd)
    requires output != "" && !Contains(output, prompt)
    ensures KeepAfter([output, prompt], prompt, cmd) == [output]
  {
    RemoveAllRepeat(prompt, 1);
    assert Repeat(prompt, 1) == prompt;
    EchoPromptFree(prompt, cmd);
    assert KeepAfter([prompt], prompt, cmd) == [];
    assert [output, prompt][1..] == [prompt];
  }

  /** What the filter emits for such a capture. */
  lemma EchoEmitted(prompt: string, cmd: string, output: string)
    requires prompt != "" && EchoFindsCommand(prompt, cmd)
    requires output != "" && !Contains(output, prompt)
    requires CleanLine(prompt + cmd) == prompt + cmd
    requires CleanLine(output) == output && CleanLine(prompt) == prompt
    requires Contains(prompt + cmd, cmd) && Prompt(prompt + cmd, cmd) == prompt
    ensures Emitted([prompt + cmd, output, prompt], 0, cmd) == [prompt + cmd, output]
  {
    var lines := [prompt + cmd, output, prompt];
    assert lines[0 + 1..] == [output, prompt];
    assert CleanLines([output, prompt]) == [output, prompt] by {
      assert [output, prompt][1..] == [prompt];
    }
    assert Emitted(lines, 0, cmd) == [prompt + cmd] + KeepAfter([output, prompt], prompt, cmd);
    EchoKeep(prompt, cmd, output);
  }

  lemma TwoLines(a: string, b: string)
    ensures Terminated([a, b], '\n') == a + "\n" + b + "\n"
  {
    assert [a, b][1..] == [b];
    assert [b][1..] == [];
    assert Terminated([b], '\n') == b + "\n";
  }

  /** A typical capture: the echoed command after the prompt, one line of
      output, and the prompt again.  The first two lines are kept and the
      trailing bare prompt line is dropped, because deleting the prompt from
      it leaves nothing; the prompt is not cut out of the kept lines. */
  lemma FilterEchoOutputPrompt(prompt: string, cmd: string, output: string)
    requires prompt != "" && !IsSpace(prompt[0]) && !IsSpace(prompt[|prompt| - 1])
    requires EchoFindsCommand(prompt, cmd)
    requires output != "" && !Contains(output, prompt)
    requires forall c :: c in ['\n', '\r', '\U{08}', '\U{1B}'] ==> c !in prompt && c !in cmd && c !in output
    ensures FilterResult(prompt + cmd + "\n" + output + "\n" + prompt, cmd)
            == prompt + cmd + "\n" + output + "\n"
  {
    var raw := prompt + cmd + "\n" + output + "\n" + prompt;
    var echo := prompt + cmd;
    var lines := [echo, output, prompt];
    EchoLines(prompt, cmd, output);
    CleanLineUnchanged(echo);
    CleanLineUnchanged(output);
    CleanLineUnchanged(prompt);
    PromptOfEcho(prompt, cmd);
    FilterFound(raw, cmd, 0);
    EchoEmitted(prompt, cmd, output);
    TwoLines(echo, output);
  }
}
