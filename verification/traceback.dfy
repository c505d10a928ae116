/**
 * `StudentException.__str__` (gradepy/grade.py): the traceback text with
 * its first `skip` lines removed and trailing whitespace stripped, computed
 * as `tb.split('\n', skip)[-1].rstrip()`. Capturing the traceback itself
 * (`traceback.format_exc`) is outside the model: the text is a parameter.
 */
module Traceback {
  import opened Basics

  function IndexOf(s: string, c: char): (r: nat)
    requires c in s
    ensures r < |s| && s[r] == c
    ensures c !in s[..r]
  {
    if s[0] == c then 0
    else
      assert c in s[1..] by {
        var k :| 0 <= k < |s| && s[k] == c;
        assert s[1..][k - 1] == c;
      }
      var r := 1 + IndexOf(s[1..], c);
      assert s[..r] == [s[0]] + s[1..][..r - 1];
      r
  }

  /** Python's `s.split(sep, maxsplit)`: at most `maxsplit` splits, made at
      the leftmost separators. */
  function SplitMax(s: string, sep: char, maxsplit: nat): (r: seq<string>)
    ensures |r| >= 1
    decreases maxsplit
  {
    if maxsplit == 0 || sep !in s then [s]
    else
      var i := IndexOf(s, sep);
      [s[..i]] + SplitMax(s[i + 1..], sep, maxsplit - 1)
  }

  /** `StudentException.__str__`: `tb.split('\n', skip)[-1].rstrip()`. */
  function Slice(tb: string, skip: nat): string {
    var pieces := SplitMax(tb, '\n', skip);
    RStrip(pieces[|pieces| - 1])
  }

  /** `str.split` splits at the first separator. */
  lemma {:induction false} SplitAtFirst(s: string, sep: char)
    requires sep in s
    ensures Split(s, sep) == [s[..IndexOf(s, sep)]] + Split(s[IndexOf(s, sep) + 1..], sep)
  {
    var i := IndexOf(s, sep);
    assert s == s[..i] + [sep] + s[i + 1..];
    SplitSepPrefix(s[..i], s[i + 1..], sep);
  }

  /** The full split with every piece from index `k` on joined back together. */
  function JoinFrom(full: seq<string>, sep: char, maxsplit: nat): seq<string>
    requires |full| >= 1
  {
    var k := if maxsplit < |full| - 1 then maxsplit else |full| - 1;
    full[..k] + [Join(full[k..], [sep])]
  }

  /** A split limited to `maxsplit` is the full split with every piece
      after the first `min(maxsplit, separators)` joined back together. */
  lemma {:induction false} SplitMaxIsJoinedSplit(s: string, sep: char, maxsplit: nat)
    ensures SplitMax(s, sep, maxsplit) == JoinFrom(Split(s, sep), sep, maxsplit)
    decreases maxsplit
  {
    if sep !in s {
      SplitNoSep(s, sep);
    } else if maxsplit == 0 {
      SplitThenJoin(s, sep);
    } else {
      var i := IndexOf(s, sep);
      var head, tail := s[..i], s[i + 1..];
      assert SplitMax(s, sep, maxsplit) == [head] + SplitMax(tail, sep, maxsplit - 1);
      SplitAtFirst(s, sep);
      SplitMaxIsJoinedSplit(tail, sep, maxsplit - 1);
      JoinFromCons(head, Split(tail, sep), sep, maxsplit);
    }
  }

  lemma JoinFromCons(head: string, ft: seq<string>, sep: char, maxsplit: nat)
    requires |ft| >= 1 && maxsplit >= 1
    ensures JoinFrom([head] + ft, sep, maxsplit) == [head] + JoinFrom(ft, sep, maxsplit - 1)
  {
    var full := [head] + ft;
    var k' := if maxsplit - 1 < |ft| - 1 then maxsplit - 1 else |ft| - 1;
    assert full[..k' + 1] == [head] + ft[..k'];
    assert full[k' + 1..] == ft[k'..];
  }

  /** What the student sees of a fault: the traceback lines from line
      `min(skip, last)` onward, trailing whitespace removed. */
  lemma SliceDropsLeadingLines(tb: string, skip: nat)
    ensures var lines := Split(tb, '\n');
            var k := if skip < |lines| - 1 then skip else |lines| - 1;
            Slice(tb, skip) == RStrip(Join(lines[k..], "\n"))
  {
    SplitMaxIsJoinedSplit(tb, '\n', skip);
    var lines := Split(tb, '\n');
    var pieces := JoinFrom(lines, '\n', skip);
    assert pieces[|pieces| - 1] == Join(lines[(if skip < |lines| - 1 then skip else |lines| - 1)..], "\n");
  }

  /** A traceback without a newline is shown whole (less trailing blanks),
      whatever the skip. */
  lemma SliceSingleLine(tb: string, skip: nat)
    requires '\n' !in tb
    ensures Slice(tb, skip) == RStrip(tb)
  {
  }
}
