/** The decision logic of `SSHSession` in `ssh_session.go`, with the SSH
    pipes replaced by values: the commands written so far, and the poll
    outcomes the output channel still holds. */
module SshSession {
  import opened Options
  import opened Text
  import opened Channel
  import Ssh

  /** What a session's behaviour depends on: the cached brand (empty until
      recognised), every command handed to the writer so far, and the
      output channel's poll outcomes not yet consumed. */
  datatype Session = Session(brand: string, sent: seq<string>, output: Polls)

  /** The byte stream the writer goroutine puts on the wire: each command
      followed by a newline, in the order they were handed over. */
  function Wire(cmds: seq<string>): string
  {
    Terminated(cmds, '\n')
  }

  /** The output left on the channel after a read took `n` polls. */
  function Drop(polls: Polls, n: nat): (r: Polls)
    ensures forall j :: 0 <= j < |r| ==> r[j] == Poll(polls, n + j)
    ensures |r| == if n <= |polls| then |polls| - n else 0
  {
    if n <= |polls| then polls[n..] else []
  }

  // ---------------------------------------------------------------------
  // WriteChannel

  /** `WriteChannel(cmds...)`: the commands are handed to the writer one by
      one, so the wire carries what it carried before and then each of them
      with its newline; nothing else about the session changes. */
  function WriteChannel(s: Session, cmds: seq<string>): (r: Session)
    ensures Wire(r.sent) == Wire(s.sent) + Wire(cmds)
    ensures |r.sent| == |s.sent| + |cmds|
    ensures r.brand == s.brand && r.output == s.output
  {
    TerminatedAppend(s.sent, cmds, '\n');
    s.(sent := s.sent + cmds)
  }

  /** Commands without newlines can be read back off the wire: splitting it
      at newlines gives the commands in order, and an empty piece after the
      last newline. */
  lemma WireRoundTrip(cmds: seq<string>)
    requires forall i :: 0 <= i < |cmds| ==> '\n' !in cmds[i]
    ensures Split(Wire(cmds), '\n') == cmds + [""]
  {
    SplitTerminated(cmds, '\n');
  }

  /** Two writes in a row put the same bytes on the wire as one write of
      both lists. */
  lemma WriteTwice(s: Session, a: seq<string>, b: seq<string>)
    ensures Wire(WriteChannel(WriteChannel(s, a), b).sent) == Wire(WriteChannel(s, a + b).sent)
  {
    TerminatedAppend(a, b, '\n');
  }

  // ---------------------------------------------------------------------
  // GetSSHBrand

  /** The values the brand can take: unknown, or one of the three vendors. */
  predicate KnownBrand(b: string)
  {
    b == "" || b == Ssh.HUAWEI || b == Ssh.H3C || b == Ssh.CISCO
  }

  /** The classifier applied to the lower-cased read: the first vendor
      name, in the order huawei, h3c, cisco, that occurs in the text. */
  function Classify(text: string): (b: string)
    ensures KnownBrand(b)
    ensures b != "" ==> Contains(text, b)
    ensures b == "" <==> !Contains(text, Ssh.HUAWEI) && !Contains(text, Ssh.H3C) && !Contains(text, Ssh.CISCO)
    ensures b == Ssh.HUAWEI <==> Contains(text, Ssh.HUAWEI)
    ensures b == Ssh.H3C ==> !Contains(text, Ssh.HUAWEI)
    ensures b == Ssh.CISCO ==> !Contains(text, Ssh.HUAWEI) && !Contains(text, Ssh.H3C)
  {
    if Contains(text, Ssh.HUAWEI) then Ssh.HUAWEI
    else if Contains(text, Ssh.H3C) then Ssh.H3C
    else if Contains(text, Ssh.CISCO) then Ssh.CISCO
    else ""
  }

  /** The commands written to provoke the version banner; the trailing
      blanks answer a pager prompt. */
  const ProbeCmds: seq<string> := ["dis version", "show version", "     "]

  datatype BrandQuery = BrandQuery(brand: string, session: Session)

  /** `GetSSHBrand`.  A known brand is returned with nothing written or
      read.  Otherwise the probe commands are written, the channel is read
      until it goes quiet, and the lower-cased text is classified; the
      outcome is stored, so an unrecognised device stays unknown. */
  function GetSSHBrand(s: Session): (q: BrandQuery)
    ensures q.brand == q.session.brand
    ensures KnownBrand(s.brand) ==> KnownBrand(q.brand)
    ensures s.brand != "" ==> q.session == s
    ensures s.brand == "" ==> Wire(q.session.sent) == Wire(s.sent) + Wire(ProbeCmds)
    ensures s.brand == "" ==> q.brand == Classify(ToLower(ReadChannelTiming(s.output).text))
    ensures s.brand == "" && q.brand != "" ==>
              Contains(ToLower(ReadChannelTiming(s.output).text), q.brand)
    ensures s.brand == "" ==>
              q.session.output == Drop(s.output, FirstIdle(s.output) + 2)
  {
    if s.brand != "" then BrandQuery(s.brand, s)
    else
      var w := WriteChannel(s, ProbeCmds);
      var rd := ReadChannelTiming(w.output);
      var b := Classify(ToLower(rd.text));
      BrandQuery(b, w.(brand := b, output := Drop(w.output, rd.used)))
  }

  /** Once a brand is recognised, asking again writes and reads nothing and
      gives the same answer. */
  lemma BrandCached(s: Session)
    ensures var q := GetSSHBrand(s);
            q.brand != "" ==> GetSSHBrand(q.session) == q
  {
  }

  /** An unrecognised device is not cached: the next call probes again. */
  lemma BrandRetried(s: Session)
    requires s.brand == ""
    ensures var q := GetSSHBrand(s);
            q.brand == "" ==>
              && q.session.brand == ""
              && Wire(GetSSHBrand(q.session).session.sent)
                 == Wire(s.sent) + Wire(ProbeCmds) + Wire(ProbeCmds)
  {
  }

  /** The name is matched whatever its case: a read that shows "Huawei" (or
      any other spelling whose lower case is a vendor name) yields a
      recognised brand, and huawei in particular always wins. */
  lemma BrandIgnoresCase(s: Session, word: string)
    requires s.brand == ""
    requires Contains(ReadChannelTiming(s.output).text, word)
    requires ToLower(word) == Ssh.HUAWEI || ToLower(word) == Ssh.H3C || ToLower(word) == Ssh.CISCO
    ensures GetSSHBrand(s).brand != ""
    ensures ToLower(word) == Ssh.HUAWEI ==> GetSSHBrand(s).brand == Ssh.HUAWEI
  {
    ToLowerContains(ReadChannelTiming(s.output).text, word);
  }

  // ---------------------------------------------------------------------
  // CheckSelf

  /** The characters that end a device prompt. */
  const Marks: seq<string> := ["#", ">", "]"]

  predicate HasMark(s: string)
  {
    '#' in s || '>' in s || ']' in s
  }

  datatype Check = Check(alive: bool, session: Session)

  /** `CheckSelf`: a newline is written, the channel is read until a chunk
      holds a prompt character or the channel goes quiet, and the session
      is alive when the text read holds a prompt character. */
  function CheckSelf(s: Session): (c: Check)
    ensures c.session.brand == s.brand
    ensures Wire(c.session.sent) == Wire(s.sent) + "\n\n"
  {
    var w := WriteChannel(s, ["\n"]);
    assert Wire(["\n"]) == "\n\n" by {
      assert ["\n"][1..] == [];
    }
    var rd := ReadChannelExpect(w.output, Marks);
    var text := rd.text;
    Check(Contains(text, "#") || Contains(text, ">") || Contains(text, "]"),
          w.(output := Drop(w.output, rd.used)))
  }

  lemma {:induction false} InConcat(chunks: seq<string>, c: char)
    ensures c in Concat(chunks) <==> exists k :: 0 <= k < |chunks| && c in chunks[k]
    decreases |chunks|
  {
    if |chunks| > 0 {
      InConcat(chunks[1..], c);
      if c in Concat(chunks[1..]) {
        var k :| 0 <= k < |chunks| - 1 && c in chunks[1..][k];
        assert c in chunks[k + 1];
      }
      if exists k :: 0 <= k < |chunks| && c in chunks[k] {
        var k :| 0 <= k < |chunks| && c in chunks[k];
        if k > 0 {
          assert c in chunks[1..][k - 1];
        }
      }
    }
  }

  lemma {:induction false} InArrived(polls: Polls, i: nat, j: nat, x: string)
    ensures x in Arrived(polls, i, j) <==> exists k :: i <= k < j && Poll(polls, k) == Some(x)
    decreases j - i
  {
    if i < j {
      InArrived(polls, i + 1, j, x);
      var rest := Arrived(polls, i + 1, j);
      match Poll(polls, i)
      case Some(c) =>
        assert Arrived(polls, i, j) == [c] + rest;
        if x in rest {
          var k :| i + 1 <= k < j && Poll(polls, k) == Some(x);
        }
      case None =>
        assert Arrived(polls, i, j) == rest;
      if exists k :: i <= k < j && Poll(polls, k) == Some(x) {
        var k :| i <= k < j && Poll(polls, k) == Some(x);
        if k > i {
          assert x in rest;
        }
      }
    }
  }

  lemma MarksMatch(chunk: string)
    ensures Matches(chunk, Marks) <==> HasMark(chunk)
  {
    ContainsChar(chunk, '#');
    ContainsChar(chunk, '>');
    ContainsChar(chunk, ']');
    var m1 := Marks[1..];
    var m2 := m1[1..];
    assert Marks[0] == ['#'] && m1[0] == ['>'] && m2[0] == [']'] && m2[1..] == [];
    assert Matches(chunk, m2) <==> Contains(chunk, [']']);
    assert Matches(chunk, m1) <==> Contains(chunk, ['>']) || Contains(chunk, [']']);
  }

  /** The text of a read holds a prompt character exactly when one of the
      chunks it gathered holds one. */
  lemma MarkInRead(polls: Polls, n: nat)
    ensures HasMark(Concat(Arrived(polls, 0, n)))
            <==> exists k :: 0 <= k < n && MatchAt(polls, Marks, k)
  {
    var cs := Arrived(polls, 0, n);
    InConcat(cs, '#');
    InConcat(cs, '>');
    InConcat(cs, ']');
    if HasMark(Concat(cs)) {
      var m :| 0 <= m < |cs| && HasMark(cs[m]);
      InArrived(polls, 0, n, cs[m]);
      var k :| 0 <= k < n && Poll(polls, k) == Some(cs[m]);
      MarksMatch(cs[m]);
      assert MatchAt(polls, Marks, k);
    }
    if exists k :: 0 <= k < n && MatchAt(polls, Marks, k) {
      var k :| 0 <= k < n && MatchAt(polls, Marks, k);
      var x := Poll(polls, k).value;
      MarksMatch(x);
      InArrived(polls, 0, n, x);
      var m :| 0 <= m < |cs| && cs[m] == x;
      assert HasMark(cs[m]);
    }
  }

  /** The verdict is whether the text read holds a prompt character. */
  lemma CheckSelfMark(s: Session)
    ensures CheckSelf(s).alive <==> HasMark(ReadChannelExpect(s.output, Marks).text)
  {
    var text := ReadChannelExpect(s.output, Marks).text;
    ContainsChar(text, '#');
    ContainsChar(text, '>');
    ContainsChar(text, ']');
  }

  /** The session is alive exactly when the read ended on a chunk holding a
      prompt character, which is when some chunk that arrived before the
      channel first went quiet holds one. */
  lemma CheckSelfAlive(s: Session)
    ensures var rd := ReadChannelExpect(s.output, Marks);
            CheckSelf(s).alive <==> MatchAt(s.output, Marks, rd.used - 1)
    ensures CheckSelf(s).alive
            <==> exists k :: 0 <= k < FirstIdle(s.output) && MatchAt(s.output, Marks, k)
  {
    var polls := s.output;
    var rd := ReadChannelExpect(polls, Marks);
    CheckSelfMark(s);
    MarkInRead(polls, rd.used);
    ExpectEndsOnMatch(polls, Marks);
  }
}
