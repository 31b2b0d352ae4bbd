/** Python string operations the game engine relies on: `str.split`, `str.join`,
    `str.count` and the slice-and-concatenate idiom `s[:i] + ch + s[i+1:]`
    that the engine uses to overwrite one character of a board row. */
module Strings {

  /** Python's `s.split(sep)` for a one-character separator: always at least
      one piece, and no piece contains the separator. */
  function Split(s: string, sep: char): (parts: seq<string>)
    ensures |parts| >= 1
    ensures forall i :: 0 <= i < |parts| ==> sep !in parts[i]
  {
    if s == [] then [[]]
    else
      var p := Split(s[..|s| - 1], sep);
      if s[|s| - 1] == sep then p + [[]]
      else p[..|p| - 1] + [p[|p| - 1] + [s[|s| - 1]]]
  }

  /** Python's `sep.join(parts)`. */
  function Join(parts: seq<string>, sep: char): string
  {
    if |parts| == 0 then []
    else if |parts| == 1 then parts[0]
    else Join(parts[..|parts| - 1], sep) + [sep] + parts[|parts| - 1]
  }

  /** Python's `s.count(ch)` for a single character. */
  function CountChar(s: string, ch: char): (n: nat)
    ensures n == |Positions(s, ch)|
  {
    if s == [] then 0
    else
      PositionsSnoc(s, ch);
      CountChar(s[..|s| - 1], ch) + (if s[|s| - 1] == ch then 1 else 0)
  }

  /** The indices of `s` holding `ch`: the reference meaning of `CountChar`. */
  ghost function Positions(s: string, ch: char): set<int>
  {
    set i | 0 <= i < |s| && s[i] == ch
  }

  lemma PositionsSnoc(s: string, ch: char)
    requires s != []
    ensures Positions(s, ch) ==
            Positions(s[..|s| - 1], ch) + (if s[|s| - 1] == ch then {|s| - 1} else {})
    ensures |s| - 1 !in Positions(s[..|s| - 1], ch)
  {
    var t := s[..|s| - 1];
    forall i | i in Positions(s, ch) && i != |s| - 1
      ensures i in Positions(t, ch)
    {
      assert t[i] == s[i];
    }
    forall i | i in Positions(t, ch)
      ensures i in Positions(s, ch)
    {
      assert t[i] == s[i];
    }
  }

  /** The number of `ch` over all the rows of a grid. */
  function SumCount(rows: seq<string>, ch: char): nat
  {
    if |rows| == 0 then 0
    else SumCount(rows[..|rows| - 1], ch) + CountChar(rows[|rows| - 1], ch)
  }

  /** `s[:i] + ch + s[i+1:]`: `s` with its character at `i` overwritten by `ch`. */
  function ReplaceAt(s: string, i: int, ch: char): (r: string)
    requires 0 <= i < |s|
    ensures |r| == |s|
    ensures r[i] == ch
    ensures forall j :: 0 <= j < |s| && j != i ==> r[j] == s[j]
  {
    s[..i] + [ch] + s[i + 1..]
  }

  lemma {:induction false} CountCharAppend(a: string, b: string, ch: char)
    ensures CountChar(a + b, ch) == CountChar(a, ch) + CountChar(b, ch)
    decreases |b|
  {
    if b == [] {
      assert a + b == a;
    } else {
      var b' := b[..|b| - 1];
      assert (a + b)[..|a + b| - 1] == a + b';
      CountCharAppend(a, b', ch);
    }
  }

  /** Joining pieces adds only separators, so a character other than the
      separator is counted piece by piece. */
  lemma {:induction false} CountCharJoin(parts: seq<string>, sep: char, ch: char)
    requires sep != ch
    ensures CountChar(Join(parts, sep), ch) == SumCount(parts, ch)
    decreases |parts|
  {
    if |parts| == 0 {
    } else if |parts| == 1 {
      assert parts[..0] == [];
    } else {
      var init := parts[..|parts| - 1];
      CountCharJoin(init, sep, ch);
      CountCharAppend(Join(init, sep) + [sep], parts[|parts| - 1], ch);
      CountCharAppend(Join(init, sep), [sep], ch);
      assert [sep][..0] == [];
    }
  }

  /** Joining pieces adds exactly one separator between each two of them:
      the join holds the separators of the pieces and `|parts| - 1` more. */
  lemma {:induction false} JoinSeparators(parts: seq<string>, sep: char)
    requires |parts| > 0
    ensures CountChar(Join(parts, sep), sep) == SumCount(parts, sep) + |parts| - 1
    decreases |parts|
  {
    if |parts| == 1 {
      assert parts[..0] == [];
    } else {
      var init := parts[..|parts| - 1];
      JoinSeparators(init, sep);
      CountCharAppend(Join(init, sep) + [sep], parts[|parts| - 1], sep);
      CountCharAppend(Join(init, sep), [sep], sep);
      assert [sep][..0] == [];
    }
  }

  lemma {:induction false} SplitOfSepFree(s: string, sep: char)
    requires sep !in s
    ensures Split(s, sep) == [s]
    decreases |s|
  {
    if s != [] {
      var init, last := s[..|s| - 1], s[|s| - 1];
      assert sep !in init by {
        forall i | 0 <= i < |init|
          ensures init[i] != sep
        {
          assert init[i] == s[i];
        }
      }
      SplitOfSepFree(init, sep);
      assert last != sep;
      assert Split(s, sep) == [init + [last]];
      assert init + [last] == s;
    }
  }

  /** Splitting `a + sep + b` splits `a` and ends with the piece `b`. */
  lemma {:induction false} SplitAfterSep(a: string, sep: char, b: string)
    requires sep !in b
    ensures Split(a + [sep] + b, sep) == Split(a, sep) + [b]
    decreases |b|
  {
    var s := a + [sep] + b;
    if b == [] {
      assert s[..|s| - 1] == a;
    } else {
      var b' := b[..|b| - 1];
      assert s[..|s| - 1] == a + [sep] + b';
      SplitAfterSep(a, sep, b');
      assert b' + [b[|b| - 1]] == b;
    }
  }

  /** Python's `sep.join(s.split(sep)) == s`. */
  lemma {:induction false} JoinSplit(s: string, sep: char)
    ensures Join(Split(s, sep), sep) == s
    decreases |s|
  {
    if s != [] {
      var init := s[..|s| - 1];
      var last := s[|s| - 1];
      var p := Split(init, sep);
      JoinSplit(init, sep);
      assert init + [last] == s;
      if last == sep {
        assert Split(s, sep) == p + [[]];
        assert (p + [[]])[..|p|] == p;
      } else {
        var q := p[..|p| - 1];
        assert Split(s, sep) == q + [p[|p| - 1] + [last]];
        if |p| == 1 {
          assert p == [p[0]];
        } else {
          assert (q + [p[|p| - 1] + [last]])[..|q|] == q;
          assert q + [p[|p| - 1]] == p;
          assert Join(p, sep) == Join(q, sep) + [sep] + p[|p| - 1];
        }
      }
    }
  }

  /** Splitting the join of separator-free pieces gives the pieces back. */
  lemma {:induction false} SplitJoin(parts: seq<string>, sep: char)
    requires |parts| >= 1
    requires forall i :: 0 <= i < |parts| ==> sep !in parts[i]
    ensures Split(Join(parts, sep), sep) == parts
    decreases |parts|
  {
    if |parts| == 1 {
      SplitOfSepFree(parts[0], sep);
    } else {
      var init := parts[..|parts| - 1];
      SplitJoin(init, sep);
      SplitAfterSep(Join(init, sep), sep, parts[|parts| - 1]);
      assert init + [parts[|parts| - 1]] == parts;
    }
  }
}
