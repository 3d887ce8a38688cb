/** What replacing leaves in every place of the result, by the recorded positions of the occurrences. */
module ReplaceMeaning {
  import opened Bytes
  import opened Binstr
  import opened FindReplace

  /** How far m replacements move what is behind them. */
  function Moved(m: nat, find: seq<byte>, repl: seq<byte>): int {
    if m == 0 then 0 else Moved(m - 1, find, repl) + |repl| - |find|
  }

  /** What replacing does, place by place: the m-th recorded occurrence is now the replacement. */
  lemma {:induction false} OccurrenceReplaced(s: seq<byte>, find: seq<byte>, repl: seq<byte>, pos: nat, m: nat)
    requires |find| > 0 && pos <= |s| && m < |Matches(s, find, pos)|
    ensures var r, at := ReplaceFrom(s, find, repl, pos), Matches(s, find, pos)[m] - pos + Moved(m, find, repl);
      0 <= at <= at + |repl| <= |r| && r[at..at + |repl|] == repl
    decreases |s| - pos
  {
    hide FindFrom, OccursAt, ReplaceFrom;
    var i := FindFrom(s, find, pos);
    ReplaceFromFound(s, find, repl, pos, i);
    var rest := ReplaceFrom(s, find, repl, i + |find|);
    if m == 0 {
      SliceOfJoined(s[pos..i], repl, rest);
    } else {
      OccurrenceReplaced(s, find, repl, i + |find|, m - 1);
      var at := Matches(s, find, i + |find|)[m - 1] - (i + |find|) + Moved(m - 1, find, repl);
      SliceBehind(s[pos..i] + repl, rest, at, at + |repl|);
    }
  }

  lemma SliceOfJoined<X>(a: seq<X>, b: seq<X>, c: seq<X>)
    ensures (a + b + c)[|a|..|a| + |b|] == b
  {
  }

  lemma SliceBehind<X>(a: seq<X>, b: seq<X>, from: nat, to: nat)
    requires from <= to <= |b|
    ensures (a + b)[|a| + from..|a| + to] == b[from..to]
  {
  }

  lemma TextBefore(s: seq<byte>, find: seq<byte>, repl: seq<byte>, pos: nat, p: nat)
    requires |find| > 0 && pos <= p < |s|
    requires 0 < |Matches(s, find, pos)| ==> p < Matches(s, find, pos)[0]
    ensures p - pos < |ReplaceFrom(s, find, repl, pos)| && ReplaceFrom(s, find, repl, pos)[p - pos] == s[p]
  {
    var i := FindFrom(s, find, pos);
    if i == BSTR_ERR {
      assert ReplaceFrom(s, find, repl, pos) == s[pos..];
    } else {
      ReplaceFromFound(s, find, repl, pos, i);
    }
    hide FindFrom, ReplaceFrom, Matches;
  }

  lemma FirstMatchAt(s: seq<byte>, find: seq<byte>, pos: nat) returns (i: nat)
    requires |find| > 0 && pos <= |s| && |Matches(s, find, pos)| > 0
    ensures i == FindFrom(s, find, pos) && i + |find| <= |s|
  {
    i := FindFrom(s, find, pos);
  }

  lemma MatchFrom(s: seq<byte>, find: seq<byte>, pos: nat, m: nat)
    requires |find| > 0 && pos <= |s| && m < |Matches(s, find, pos)|
    ensures pos <= Matches(s, find, pos)[m]
  {
    MatchesAreLeftmost(s, find, pos);
    hide Matches, OccursAt, Overlaps;
    assert Matches(s, find, pos)[m] in Matches(s, find, pos);
  }

  /** And a byte behind m occurrences that stands in none is kept. */
  lemma {:induction false} TextKept(s: seq<byte>, find: seq<byte>, repl: seq<byte>, pos: nat, m: nat, p: nat)
    requires |find| > 0 && pos <= p < |s| && m <= |Matches(s, find, pos)|
    requires m > 0 ==> Matches(s, find, pos)[m - 1] + |find| <= p
    requires m < |Matches(s, find, pos)| ==> p < Matches(s, find, pos)[m]
    ensures var r, at := ReplaceFrom(s, find, repl, pos), p - pos + Moved(m, find, repl);
      0 <= at < |r| && r[at] == s[p]
    decreases |s| - pos
  {
    hide FindFrom, ReplaceFrom, Matches;
    if m == 0 {
      TextBefore(s, find, repl, pos, p);
    } else {
      var i := FirstMatchAt(s, find, pos);
      ReplaceFromFound(s, find, repl, pos, i);
      if m > 1 {
        MatchFrom(s, find, i + |find|, m - 2);
      }
      TextKept(s, find, repl, i + |find|, m - 1, p);
      var rest := ReplaceFrom(s, find, repl, i + |find|);
      var at := p - (i + |find|) + Moved(m - 1, find, repl);
      SliceBehind(s[pos..i] + repl, rest, at, at + 1);
    }
  }
}
