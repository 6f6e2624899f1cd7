/** The optional value used wherever the library may come back empty-handed:
    a search that finds nothing, or a channel that is empty right now. */
module Options {

  datatype Option<+T> = None | Some(value: T)
}

/** The few operations of Go's `strings` package that the library relies on,
    over `string` (a sequence of characters).  Each one follows the Go
    function it is named after: `IndexOf` is `strings.Index`, `Contains` is
    `strings.Contains`, `RemoveAll(s, p)` is `strings.Replace(s, p, "", -1)`,
    `Split` is `strings.Split` with a one-character separator, `TrimSpace`
    and `ToLower` are their ASCII parts. */
module Text {
  import opened Options

  /** `p` occurs in `s` starting at position `i`. */
  predicate OccursAt(s: string, p: string, i: nat) {
    i + |p| <= |s| && s[i..i + |p|] == p
  }

  /** Occurrences in `s` past its first character are occurrences in `s[1..]`. */
  lemma OccursShift(s: string, p: string)
    requires |s| > 0
    ensures forall j :: 1 <= j <= |s| ==> (OccursAt(s, p, j) <==> OccursAt(s[1..], p, j - 1))
  {
    var t := s[1..];
    forall j | 1 <= j <= |s|
      ensures OccursAt(s, p, j) <==> OccursAt(t, p, j - 1)
    {
      if j + |p| <= |s| {
        var u := s[j..j + |p|];
        var v := t[j - 1..j - 1 + |p|];
        assert |u| == |v|;
        forall i | 0 <= i < |p| ensures u[i] == v[i] {
          assert u[i] == s[j + i];
          assert v[i] == t[j - 1 + i];
        }
        assert u == v;
      }
    }
  }

  /** `strings.Index`: the first position at which `p` occurs in `s`. */
  function IndexOf(s: string, p: string): (r: Option<nat>)
    ensures r.Some? ==> OccursAt(s, p, r.value)
    ensures r.Some? ==> forall j :: 0 <= j < r.value ==> !OccursAt(s, p, j)
    ensures r.None? ==> forall j :: 0 <= j <= |s| ==> !OccursAt(s, p, j)
    decreases |s|
  {
    if OccursAt(s, p, 0) then Some(0)
    else if |s| == 0 then None
    else
      OccursShift(s, p);
      match IndexOf(s[1..], p)
      case None => None
      case Some(k) => Some(k + 1)
  }

  /** `strings.Contains`. */
  predicate Contains(s: string, p: string) {
    IndexOf(s, p).Some?
  }

  /** An occurrence anywhere in `s` is found by `Contains`. */
  lemma ContainsAt(s: string, p: string, i: nat)
    requires i + |p| <= |s| && s[i..i + |p|] == p
    ensures Contains(s, p)
  {
    assert OccursAt(s, p, i);
  }

  /** `strings.Replace(s, p, "", -1)`: every non-overlapping occurrence of `p`,
      taken left to right, is deleted.  With an empty `p` Go inserts the empty
      replacement between characters, which leaves `s` as it was. */
  function RemoveAll(s: string, p: string): (r: string)
    ensures |r| <= |s|
    ensures |p| == 1 ==> p[0] !in r
    decreases |s|
  {
    if |p| == 0 || |s| == 0 then s
    else if OccursAt(s, p, 0) then RemoveAll(s[|p|..], p)
    else [s[0]] + RemoveAll(s[1..], p)
  }

  /** Where `p` does not start, the first character is kept. */
  lemma RemoveAllSkip(s: string, p: string)
    requires |p| > 0 && |s| > 0 && !OccursAt(s, p, 0)
    ensures RemoveAll(s, p) == [s[0]] + RemoveAll(s[1..], p)
  {
  }

  /** An occurrence one place further on in `[c] + w` is one in `w`. */
  lemma OccursTail(c: char, w: string, p: string, j: nat)
    ensures OccursAt([c] + w, p, j + 1) <==> OccursAt(w, p, j)
  {
    if j + 1 + |p| <= |[c] + w| {
      assert ([c] + w)[j + 1..j + 1 + |p|] == w[j..j + |p|];
    }
  }

  /** A prefix in which no occurrence starts is kept as it is. */
  lemma {:induction false} RemoveAllPrefix(u: string, v: string, p: string)
    requires |p| > 0
    requires forall j :: 0 <= j < |u| ==> !OccursAt(u + v, p, j)
    ensures RemoveAll(u + v, p) == u + RemoveAll(v, p)
    decreases |u|
  {
    if |u| == 0 {
      assert u + v == v;
    } else {
      var w := u[1..] + v;
      assert u + v == [u[0]] + w;
      assert !OccursAt(u + v, p, 0);
      RemoveAllSkip(u + v, p);
      assert (u + v)[1..] == w;
      forall j | 0 <= j < |u| - 1
        ensures !OccursAt(w, p, j)
      {
        OccursTail(u[0], w, p, j);
        assert !OccursAt(u + v, p, j + 1);
      }
      RemoveAllPrefix(u[1..], v, p);
      assert u == [u[0]] + u[1..];
    }
  }

  /** An occurrence at the front is dropped. */
  lemma RemoveAllFront(p: string, w: string)
    requires |p| > 0
    ensures RemoveAll(p + w, p) == RemoveAll(w, p)
  {
    assert (p + w)[0..|p|] == p;
    assert (p + w)[|p|..] == w;
  }

  /** Text in which no occurrence starts, then an occurrence: the text is
      kept and the occurrence dropped. */
  lemma RemoveAllSplice(u: string, p: string, w: string)
    requires |p| > 0
    requires forall j :: 0 <= j < |u| ==> !OccursAt(u + p + w, p, j)
    ensures RemoveAll(u + p + w, p) == u + RemoveAll(w, p)
  {
    assert u + p + w == u + (p + w);
    RemoveAllPrefix(u, p + w, p);
    RemoveAllFront(p, w);
  }

  /** With no occurrence of `p`, nothing is deleted. */
  lemma {:induction false} RemoveAllAbsent(s: string, p: string)
    requires !Contains(s, p)
    ensures RemoveAll(s, p) == s
  {
    if |p| > 0 {
      assert s + [] == s;
      RemoveAllPrefix(s, [], p);
    }
  }

  /** The loop `strings.Replace` runs: find the first occurrence with
      `strings.Index`, keep the text before it, drop the occurrence and go
      on after it.  With no occurrence left, `RemoveAllAbsent` applies. */
  lemma {:induction false} RemoveAllFirst(s: string, p: string, i: nat)
    requires |p| > 0 && IndexOf(s, p) == Some(i)
    ensures RemoveAll(s, p) == s[..i] + RemoveAll(s[i + |p|..], p)
  {
    var u, w := s[..i], s[i + |p|..];
    assert s == u + p + w by {
      assert s[i..i + |p|] == p;
      assert s == s[..i] + s[i..i + |p|] + s[i + |p|..];
    }
    forall j | 0 <= j < |u|
      ensures !OccursAt(u + p + w, p, j)
    {
      assert !OccursAt(s, p, j);
    }
    RemoveAllSplice(u, p, w);
  }

  /** Deleting never brings in a character that was not there. */
  lemma {:induction false} RemoveAllKeepsOut(s: string, p: string, c: char)
    requires c !in s
    ensures c !in RemoveAll(s, p)
    decreases |s|
  {
    if |p| > 0 && |s| > 0 {
      if OccursAt(s, p, 0) {
        RemoveAllKeepsOut(s[|p|..], p, c);
      } else {
        RemoveAllKeepsOut(s[1..], p, c);
      }
    }
  }

  /** A character missing from a string is missing from every slice. */
  lemma NotInSlice(s: string, i: nat, n: nat, c: char)
    requires i + n <= |s| && c !in s
    ensures c !in s[i..i + n]
  {
  }

  /** A pattern holding a character that `s` lacks does not occur in `s`. */
  lemma MissingChar(s: string, p: string, i: nat)
    requires i < |p| && p[i] !in s
    ensures !Contains(s, p)
    ensures RemoveAll(s, p) == s
  {
    RemoveAllAbsent(s, p);
  }

  /** `p` written `n` times in a row. */
  function Repeat(p: string, n: nat): (r: string)
    ensures |r| == n * |p|
  {
    if n == 0 then "" else p + Repeat(p, n - 1)
  }

  /** `s` is made of nothing but copies of `p` (none at all included). */
  ghost predicate RepeatOf(s: string, p: string)
  {
    exists n: nat :: s == Repeat(p, n)
  }

  /** Deleting every occurrence of `p` from a string made only of copies of `p`
      leaves nothing. */
  lemma {:induction false} RemoveAllRepeat(p: string, n: nat)
    ensures RemoveAll(Repeat(p, n), p) == ""
  {
    if n > 0 && |p| > 0 {
      var s := Repeat(p, n);
      assert OccursAt(s, p, 0);
      assert s[|p|..] == Repeat(p, n - 1);
      RemoveAllRepeat(p, n - 1);
    }
  }

  /** The converse: when deleting a non-empty pattern leaves nothing, the
      string was made only of copies of it; `n` is how many. */
  lemma {:induction false} RemoveAllEmpty(s: string, p: string) returns (n: nat)
    requires |p| > 0 && RemoveAll(s, p) == ""
    ensures s == Repeat(p, n)
    decreases |s|
  {
    if |s| == 0 {
      n := 0;
    } else if OccursAt(s, p, 0) {
      var m := RemoveAllEmpty(s[|p|..], p);
      n := m + 1;
      assert s == p + s[|p|..];
    } else {
      assert false;
    }
  }

  /** Deleting a non-empty pattern leaves nothing exactly when the string is
      made only of copies of it. */
  lemma RemoveAllEmptyIff(s: string, p: string)
    requires |p| > 0
    ensures RemoveAll(s, p) == "" <==> RepeatOf(s, p)
  {
    if RemoveAll(s, p) == "" {
      var n := RemoveAllEmpty(s, p);
    }
    if RepeatOf(s, p) {
      var n: nat :| s == Repeat(p, n);
      RemoveAllRepeat(p, n);
    }
  }

  /** A one-character pattern occurs exactly when the character does. */
  lemma ContainsChar(s: string, c: char)
    ensures Contains(s, [c]) <==> c in s
  {
    if c in s {
      var i :| 0 <= i < |s| && s[i] == c;
      ContainsAt(s, [c], i);
    }
    if Contains(s, [c]) {
      var k := IndexOf(s, [c]).value;
      assert OccursAt(s, [c], k);
      assert s[k..k + 1] == [c];
      assert s[k..k + 1][0] == s[k];
    }
  }

  /** `strings.Split(s, string(sep))`: the pieces between separators, in
      order; an empty `s` gives one empty piece. */
  function Split(s: string, sep: char): (r: seq<string>)
    ensures |r| >= 1
    ensures forall i :: 0 <= i < |r| ==> sep !in r[i]
    decreases |s|
  {
    if |s| == 0 then [""]
    else
      var rest := Split(s[1..], sep);
      if s[0] == sep then [""] + rest
      else [[s[0]] + rest[0]] + rest[1..]
  }

  /** There is one more piece than there are separators. */
  lemma {:induction false} SplitCount(s: string, sep: char)
    ensures |Split(s, sep)| == multiset(s)[sep] + 1
    decreases |s|
  {
    if |s| > 0 {
      SplitCount(s[1..], sep);
      assert s == [s[0]] + s[1..];
    }
  }

  /** `strings.Join(parts, string(sep))`. */
  function Join(parts: seq<string>, sep: char): string
  {
    if |parts| == 0 then ""
    else if |parts| == 1 then parts[0]
    else parts[0] + [sep] + Join(parts[1..], sep)
  }

  /** Gluing text onto the first piece glues it onto the joined text. */
  lemma JoinPrefixFirst(a: string, parts: seq<string>, sep: char)
    requires |parts| >= 1
    ensures Join([a + parts[0]] + parts[1..], sep) == a + Join(parts, sep)
  {
    var q := [a + parts[0]] + parts[1..];
    if |parts| > 1 {
      assert q[1..] == parts[1..];
    }
  }

  /** Splitting and joining back on the same separator gives the text back. */
  lemma {:induction false} JoinSplit(s: string, sep: char)
    ensures Join(Split(s, sep), sep) == s
    decreases |s|
  {
    if |s| > 0 {
      var rest := Split(s[1..], sep);
      JoinSplit(s[1..], sep);
      if s[0] == sep {
        assert ([""] + rest)[1..] == rest;
      } else {
        JoinPrefixFirst([s[0]], rest, sep);
      }
      assert s == [s[0]] + s[1..];
    }
  }

  /** Joining pieces that hold no separator and splitting again gives the
      pieces back. */
  lemma {:induction false} SplitJoin(parts: seq<string>, sep: char)
    requires |parts| >= 1
    requires forall i :: 0 <= i < |parts| ==> sep !in parts[i]
    ensures Split(Join(parts, sep), sep) == parts
    decreases |parts|, |parts[0]|
  {
    var s := Join(parts, sep);
    if |parts[0]| == 0 {
      if |parts| > 1 {
        assert s == [sep] + Join(parts[1..], sep);
        assert s[1..] == Join(parts[1..], sep);
        SplitJoin(parts[1..], sep);
        assert parts == [""] + parts[1..];
      }
    } else {
      var c := parts[0][0];
      var tail := [parts[0][1..]] + parts[1..];
      assert parts[0] == [c] + tail[0];
      assert tail[1..] == parts[1..];
      assert [[c] + tail[0]] + tail[1..] == parts;
      JoinPrefixFirst([c], tail, sep);
      assert s == [c] + Join(tail, sep);
      assert s[1..] == Join(tail, sep);
      assert sep !in tail[0] by {
        assert forall x :: x in parts[0][1..] ==> x in parts[0];
      }
      assert forall i :: 1 <= i < |tail| ==> tail[i] == parts[i];
      SplitJoin(tail, sep);
    }
  }

  /** Pieces each followed by the separator: joining them with one more,
      empty, piece. */
  function Terminated(parts: seq<string>, sep: char): string
  {
    if |parts| == 0 then "" else parts[0] + [sep] + Terminated(parts[1..], sep)
  }

  lemma TerminatedCons(x: string, xs: seq<string>, sep: char)
    ensures Terminated([x] + xs, sep) == x + [sep] + Terminated(xs, sep)
  {
    assert ([x] + xs)[1..] == xs;
  }

  lemma {:induction false} TerminatedIsJoin(parts: seq<string>, sep: char)
    ensures Terminated(parts, sep) == Join(parts + [""], sep)
  {
    if |parts| > 0 {
      assert (parts + [""])[1..] == parts[1..] + [""];
      TerminatedIsJoin(parts[1..], sep);
    }
  }

  /** Terminated pieces end with the separator. */
  lemma {:induction false} TerminatedEnds(parts: seq<string>, sep: char)
    requires |parts| > 0
    ensures var r := Terminated(parts, sep); |r| > 0 && r[|r| - 1] == sep
  {
    if |parts| > 1 {
      TerminatedEnds(parts[1..], sep);
    }
  }

  /** Terminating pieces one after the other terminates them all. */
  lemma {:induction false} TerminatedAppend(a: seq<string>, b: seq<string>, sep: char)
    ensures Terminated(a + b, sep) == Terminated(a, sep) + Terminated(b, sep)
  {
    if |a| > 0 {
      assert (a + b)[1..] == a[1..] + b;
      TerminatedAppend(a[1..], b, sep);
    } else {
      assert a + b == b;
    }
  }

  /** Splitting terminated pieces that hold no separator gives the pieces
      back, followed by the empty text after the last separator. */
  lemma SplitTerminated(parts: seq<string>, sep: char)
    requires forall i :: 0 <= i < |parts| ==> sep !in parts[i]
    ensures Split(Terminated(parts, sep), sep) == parts + [""]
  {
    TerminatedIsJoin(parts, sep);
    SplitJoin(parts + [""], sep);
  }

  /** The pieces of terminated text: the original pieces and an empty one,
      with one separator per piece. */
  lemma TerminatedPieces(r: string, parts: seq<string>, sep: char)
    requires |parts| > 0
    requires r == Terminated(parts, sep)
    requires forall i :: 0 <= i < |parts| ==> sep !in parts[i]
    ensures var out := Split(r, sep);
            && |out| == |parts| + 1 && out[0] == parts[0] && out[|out| - 1] == ""
            && out[1..|out| - 1] == parts[1..]
            && multiset(r)[sep] == |parts|
  {
    SplitTerminated(parts, sep);
    SplitCount(r, sep);
    var out := Split(r, sep);
    assert out == parts + [""];
  }

  /** The ASCII white space that `strings.TrimSpace` removes. */
  predicate IsSpace(c: char) {
    c == ' ' || c == '\t' || c == '\n' || c == '\r' || c == '\U{0B}' || c == '\U{0C}'
  }

  /** The number of white-space characters `s` begins with. */
  function LeadingSpace(s: string): (n: nat)
    ensures n <= |s|
    ensures forall k :: 0 <= k < n ==> IsSpace(s[k])
    ensures n == |s| || !IsSpace(s[n])
  {
    if |s| > 0 && IsSpace(s[0]) then 1 + LeadingSpace(s[1..]) else 0
  }

  /** The number of white-space characters `s` ends with. */
  function TrailingSpace(s: string): (n: nat)
    ensures n <= |s|
    ensures forall k :: |s| - n <= k < |s| ==> IsSpace(s[k])
    ensures n == |s| || !IsSpace(s[|s| - 1 - n])
  {
    if |s| > 0 && IsSpace(s[|s| - 1]) then 1 + TrailingSpace(s[..|s| - 1]) else 0
  }

  /** `strings.TrimSpace`: the longest middle part of `s` that neither
      begins nor ends with white space; only white space is cut away, and
      what is kept stays in place. */
  function TrimSpace(s: string): (r: string)
    ensures |r| == 0 || (!IsSpace(r[0]) && !IsSpace(r[|r| - 1]))
    ensures LeadingSpace(s) + |r| <= |s| && r == s[LeadingSpace(s)..LeadingSpace(s) + |r|]
    ensures forall k :: LeadingSpace(s) + |r| <= k < |s| ==> IsSpace(s[k])
  {
    var a := LeadingSpace(s);
    var t := s[a..];
    var m := TrailingSpace(t);
    assert forall k :: a + |t| - m <= k < |s| ==> s[k] == t[k - a];
    t[..|t| - m]
  }

  /** The ASCII part of `unicode.ToLower`. */
  function LowerChar(c: char): char {
    if 'A' <= c <= 'Z' then (c as int + 32) as char else c
  }

  /** `strings.ToLower`, ASCII letters only. */
  function ToLower(s: string): (r: string)
    ensures |r| == |s|
    ensures forall i :: 0 <= i < |s| ==> r[i] == LowerChar(s[i])
  {
    seq(|s|, i requires 0 <= i < |s| => LowerChar(s[i]))
  }

  /** Lower-casing keeps every occurrence: if `p` occurs in `s`, its
      lower-cased form occurs in the lower-cased `s`. */
  lemma ToLowerContains(s: string, p: string)
    requires Contains(s, p)
    ensures Contains(ToLower(s), ToLower(p))
  {
    var i := IndexOf(s, p).value;
    assert OccursAt(s, p, i);
    assert ToLower(s)[i..i + |p|] == ToLower(p);
    ContainsAt(ToLower(s), ToLower(p), i);
  }
}
