/** The two read loops of `ssh_session.go`, over an abstract output channel.

    The channel is a sequence of poll outcomes: entry `i` is what the
    `select` in the loop finds on its `i`-th turn, `Some(chunk)` when a chunk
    is waiting and `None` when the channel is empty at that moment.  Past the
    end of the sequence the channel stays empty.  An empty poll makes the
    loop wait once (the wait itself is not modelled); a second empty poll in
    a row ends the loop. */
module Channel {
  import opened Options
  import opened Text

  type Polls = seq<Option<string>>

  /** The outcome of the `i`-th poll; empty for ever after the sequence. */
  function Poll(polls: Polls, i: nat): Option<string>
  {
    if i < |polls| then polls[i] else None
  }

  /** Polls `j` and `j + 1` both find the channel empty. */
  predicate IdleAt(polls: Polls, j: nat)
  {
    Poll(polls, j).None? && Poll(polls, j + 1).None?
  }

  /** The chunks among polls `i` to `j - 1`, in arrival order. */
  function Arrived(polls: Polls, i: nat, j: nat): (r: seq<string>)
    ensures |r| <= j - i || (j <= i && r == [])
    decreases j - i
  {
    if j <= i then []
    else match Poll(polls, i)
      case Some(c) => [c] + Arrived(polls, i + 1, j)
      case None => Arrived(polls, i + 1, j)
  }

  /** The chunks glued together, as `result = result + sout` does. */
  function Concat(chunks: seq<string>): string
  {
    if |chunks| == 0 then "" else chunks[0] + Concat(chunks[1..])
  }

  /** The result of a read: the text gathered and the number of polls it
      took from the channel. */
  datatype Read = Read(text: string, used: nat)

  /** The index of the first pair of consecutive empty polls at or after
      `i`; one always exists, because the channel is empty past its end. */
  function FirstIdleFrom(polls: Polls, i: nat): (r: nat)
    requires i <= |polls|
    ensures i <= r <= |polls| && IdleAt(polls, r)
    ensures forall j :: i <= j < r ==> !IdleAt(polls, j)
    decreases |polls| - i
  {
    if IdleAt(polls, i) then i else FirstIdleFrom(polls, i + 1)
  }

  function FirstIdle(polls: Polls): nat
  {
    FirstIdleFrom(polls, 0)
  }

  // ---------------------------------------------------------------------
  // ReadChannelTiming

  /** The loop of `ReadChannelTiming` from poll `i`, where `delayed` is
      `isDelay`: a chunk clears it and is appended, an empty poll ends the
      loop when it is set and sets it otherwise.  The loop uses at least one
      poll, gathers exactly the chunks among the polls it used, and ends on
      the first pair of consecutive empty polls (or at once, on an empty
      poll, when it starts delayed). */
  function Timing(polls: Polls, i: nat, delayed: bool): (r: Read)
    requires i <= |polls| + 1 && (i == |polls| + 1 ==> delayed)
    ensures i < r.used
    ensures r.text == Concat(Arrived(polls, i, r.used))
    ensures delayed && Poll(polls, i).None? ==> r.used == i + 1
    ensures (delayed && Poll(polls, i).None?) || (i + 2 <= r.used && IdleAt(polls, r.used - 2))
    ensures forall j :: i <= j < r.used - 2 ==> !IdleAt(polls, j)
    decreases |polls| + 2 - i
  {
    match Poll(polls, i)
    case Some(c) =>
      var rest := Timing(polls, i + 1, false);
      Read(c + rest.text, rest.used)
    case None =>
      if delayed then Read("", i + 1) else Timing(polls, i + 1, true)
  }

  /** `ReadChannelTiming`: the loop starts with `isDelay` false, takes
      every poll up to the first pair of consecutive empty polls, and returns
      the chunks that arrived before that pair, in arrival order. */
  function ReadChannelTiming(polls: Polls): (r: Read)
    ensures r.used == FirstIdle(polls) + 2
    ensures r.text == Concat(Arrived(polls, 0, FirstIdle(polls)))
  {
    TimingStop(polls);
    Timing(polls, 0, false)
  }

  // ---------------------------------------------------------------------
  // ReadChannelExpect

  /** A chunk holds one of the expected strings, tried in order. */
  predicate Matches(chunk: string, expects: seq<string>)
  {
    |expects| > 0 && (Contains(chunk, expects[0]) || Matches(chunk, expects[1..]))
  }

  /** Poll `j` brings a chunk that holds one of the expected strings. */
  predicate MatchAt(polls: Polls, expects: seq<string>, j: nat)
  {
    Poll(polls, j).Some? && Matches(Poll(polls, j).value, expects)
  }

  /** The loop of `ReadChannelExpect` from poll `i`: the timing loop, except
      that a chunk holding an expected string is appended and then ends the
      loop.  Only the chunk just taken is searched, never the text gathered
      so far. */
  function Expecting(polls: Polls, expects: seq<string>, i: nat, delayed: bool): (r: Read)
    requires i <= |polls| + 1 && (i == |polls| + 1 ==> delayed)
    ensures i < r.used
    ensures delayed && Poll(polls, i).None? ==> r.used == i + 1
    ensures || MatchAt(polls, expects, r.used - 1)
            || (delayed && Poll(polls, i).None?)
            || (i + 2 <= r.used && IdleAt(polls, r.used - 2))
    ensures forall j :: i <= j < r.used - 1 ==> !MatchAt(polls, expects, j)
    ensures forall j :: i <= j < r.used - 2 ==> !IdleAt(polls, j)
    decreases |polls| + 2 - i
  {
    match Poll(polls, i)
    case Some(c) =>
      if Matches(c, expects) then Read(c, i + 1)
      else
        var rest := Expecting(polls, expects, i + 1, false);
        Read(c + rest.text, rest.used)
    case None =>
      if delayed then Read("", i + 1) else Expecting(polls, expects, i + 1, true)
  }

  /** The expect loop gathers exactly the chunks among the polls it used. */
  lemma {:induction false} ExpectText(polls: Polls, expects: seq<string>, i: nat, delayed: bool)
    requires i <= |polls| + 1 && (i == |polls| + 1 ==> delayed)
    ensures var r := Expecting(polls, expects, i, delayed);
            r.text == Concat(Arrived(polls, i, r.used))
    decreases |polls| + 2 - i
  {
    match Poll(polls, i)
    case Some(c) =>
      if !Matches(c, expects) {
        ExpectText(polls, expects, i + 1, false);
      }
    case None =>
      if !delayed {
        ExpectText(polls, expects, i + 1, true);
      }
  }

  /** `ReadChannelExpect`: the expect loop from the first poll.  It gathers
      the chunks of every poll it took, and stops right after the first
      matching chunk or on the second of the first two consecutive empty
      polls, whichever comes first. */
  function ReadChannelExpect(polls: Polls, expects: seq<string>): (r: Read)
    ensures r.text == Concat(Arrived(polls, 0, r.used))
    ensures var s := FirstStopFrom(polls, expects, 0);
            r.used == if MatchAt(polls, expects, s) then s + 1 else s + 2
  {
    ExpectText(polls, expects, 0, false);
    ExpectStop(polls, expects);
    Expecting(polls, expects, 0, false)
  }

  // ---------------------------------------------------------------------
  // Properties

  lemma {:induction false} ConcatAppend(a: seq<string>, b: seq<string>)
    ensures Concat(a + b) == Concat(a) + Concat(b)
    decreases |a|
  {
    if |a| > 0 {
      ConcatAppend(a[1..], b);
      assert (a + b)[1..] == a[1..] + b;
    } else {
      assert a + b == b;
    }
  }

  lemma {:induction false} ArrivedSplit(polls: Polls, i: nat, k: nat, j: nat)
    requires i <= k <= j
    ensures Arrived(polls, i, j) == Arrived(polls, i, k) + Arrived(polls, k, j)
    decreases k - i
  {
    if i < k {
      ArrivedSplit(polls, i + 1, k, j);
    }
  }

  /** The timing read ends on the second poll of the first pair of
      consecutive empty polls, so never on a first empty poll; what it
      returns is exactly the chunks that arrived before that pair, in
      arrival order. */
  lemma TimingStop(polls: Polls)
    ensures var r := Timing(polls, 0, false);
            && r.used == FirstIdle(polls) + 2
            && Arrived(polls, 0, r.used) == Arrived(polls, 0, FirstIdle(polls))
            && r.text == Concat(Arrived(polls, 0, FirstIdle(polls)))
  {
    var r := Timing(polls, 0, false);
    var f := FirstIdle(polls);
    assert r.used - 2 == f;
    ArrivedSplit(polls, 0, f, f + 2);
    assert Arrived(polls, f, f + 2) == [];
  }

  /** Poll `j` ends an expect read: it brings a matching chunk, or it and
      the next poll are both empty. */
  predicate StopAt(polls: Polls, expects: seq<string>, j: nat)
  {
    MatchAt(polls, expects, j) || IdleAt(polls, j)
  }

  function FirstStopFrom(polls: Polls, expects: seq<string>, i: nat): (r: nat)
    requires i <= |polls|
    ensures i <= r <= |polls| && StopAt(polls, expects, r)
    ensures forall j :: i <= j < r ==> !StopAt(polls, expects, j)
    decreases |polls| - i
  {
    if StopAt(polls, expects, i) then i else FirstStopFrom(polls, expects, i + 1)
  }

  /** The expect read ends right after the first matching chunk, or on the
      second of the first two consecutive empty polls, whichever comes
      first. */
  lemma ExpectStop(polls: Polls, expects: seq<string>)
    ensures var r := Expecting(polls, expects, 0, false);
            var s := FirstStopFrom(polls, expects, 0);
            r.used == if MatchAt(polls, expects, s) then s + 1 else s + 2
  {
    var r := Expecting(polls, expects, 0, false);
    var s := FirstStopFrom(polls, expects, 0);
    if MatchAt(polls, expects, r.used - 1) {
      assert StopAt(polls, expects, r.used - 1);
      assert r.used - 1 <= s;
      if r.used >= 2 {
        assert !IdleAt(polls, r.used - 2);
      }
    } else {
      assert StopAt(polls, expects, r.used - 2);
      assert r.used - 2 <= s;
    }
  }

  /** The expect read ends on a matching chunk exactly when some chunk that
      arrives before the channel first goes quiet holds an expected string. */
  lemma ExpectEndsOnMatch(polls: Polls, expects: seq<string>)
    ensures var r := ReadChannelExpect(polls, expects);
            MatchAt(polls, expects, r.used - 1)
            <==> exists k :: 0 <= k < FirstIdle(polls) && MatchAt(polls, expects, k)
  {
    var r := ReadChannelExpect(polls, expects);
    ExpectStop(polls, expects);
    var st := FirstStopFrom(polls, expects, 0);
    var f := FirstIdle(polls);
    if MatchAt(polls, expects, r.used - 1) {
      assert st == r.used - 1;
      assert st < f;
    } else {
      assert st == f;
    }
  }

  /** As long as no chunk the timing read takes holds an expected string,
      the expect read is the timing read. */
  lemma {:induction false} ExpectWithoutMatch(polls: Polls, expects: seq<string>, i: nat, delayed: bool)
    requires i <= |polls| + 1 && (i == |polls| + 1 ==> delayed)
    requires forall j :: i <= j < Timing(polls, i, delayed).used ==> !MatchAt(polls, expects, j)
    ensures Expecting(polls, expects, i, delayed) == Timing(polls, i, delayed)
    decreases |polls| + 2 - i
  {
    match Poll(polls, i)
    case Some(c) =>
      assert !MatchAt(polls, expects, i);
      ExpectWithoutMatch(polls, expects, i + 1, false);
    case None =>
      if !delayed {
        ExpectWithoutMatch(polls, expects, i + 1, true);
      }
  }

  /** With no expected strings the expect read is the timing read. */
  lemma ExpectNothing(polls: Polls)
    ensures ReadChannelExpect(polls, []) == ReadChannelTiming(polls)
  {
    ExpectWithoutMatch(polls, [], 0, false);
  }

  /** A read that ends on a match includes the matching chunk, as the last
      thing appended. */
  lemma ExpectKeepsMatch(polls: Polls, expects: seq<string>)
    ensures var r := ReadChannelExpect(polls, expects);
            MatchAt(polls, expects, r.used - 1) ==>
            r.text == Concat(Arrived(polls, 0, r.used - 1)) + Poll(polls, r.used - 1).value
  {
    var r := ReadChannelExpect(polls, expects);
    if MatchAt(polls, expects, r.used - 1) {
      var c := Poll(polls, r.used - 1).value;
      ArrivedSplit(polls, 0, r.used - 1, r.used);
      assert Arrived(polls, r.used - 1, r.used) == [c];
      ConcatAppend(Arrived(polls, 0, r.used - 1), [c]);
    }
  }

  /** Only each chunk on its own is searched: an expected string cut in two
      by the chunk boundary does not end the read early, so both chunks and
      the two empty polls after them are taken; the same text as one chunk
      ends the read at once. */
  lemma ExpectPerChunk(a: string, b: string, e: string)
    requires !Contains(a, e) && !Contains(b, e)
    ensures ReadChannelExpect([Some(a), Some(b)], [e]) == Read(a + b, 4)
    ensures Contains(a + b, e) ==> ReadChannelExpect([Some(a + b)], [e]) == Read(a + b, 1)
  {
    var polls := [Some(a), Some(b)];
    assert !Matches(a, [e]) && !Matches(b, [e]);
    assert Expecting(polls, [e], 3, true) == Read("", 4);
    assert Expecting(polls, [e], 2, false) == Read("", 4);
    assert Expecting(polls, [e], 1, false) == Read(b, 4);
  }

  /** The search over the expected strings in order finds one exactly when
      some expected string is in the chunk. */
  lemma {:induction false} MatchesSome(chunk: string, expects: seq<string>)
    ensures Matches(chunk, expects) <==> exists k :: 0 <= k < |expects| && Contains(chunk, expects[k])
    decreases |expects|
  {
    if |expects| > 0 {
      MatchesSome(chunk, expects[1..]);
      if Matches(chunk, expects[1..]) {
        var k :| 0 <= k < |expects| - 1 && Contains(chunk, expects[1..][k]);
        assert Contains(chunk, expects[k + 1]);
      }
      if exists k :: 0 <= k < |expects| && Contains(chunk, expects[k]) {
        var k :| 0 <= k < |expects| && Contains(chunk, expects[k]);
        if k > 0 {
          assert Contains(chunk, expects[1..][k - 1]);
        }
      }
    }
  }
}
