/**
 * The three line conventions the edit engine mixes: Kotlin's `split("\n")` for the
 * replacement text, `joinToString("\n")` for the written file, and `File.readLines()`
 * (a `BufferedReader`) for reading a file as lines.
 */
module Lines {
  import opened Seqs

  const NL: char := '\n'
  const CR: char := '\r'

  /** A character `readLines` treats as (part of) a line terminator. */
  predicate IsBreak(c: char) {
    c == NL || c == CR
  }

  /** A line as `readLines` can return it: no terminator characters inside. */
  predicate NoBreaks(line: string) {
    forall i :: 0 <= i < |line| ==> !IsBreak(line[i])
  }

  predicate AllNoBreaks(ls: seq<string>) {
    forall i :: 0 <= i < |ls| ==> NoBreaks(ls[i])
  }

  /** Number of occurrences of `c` in `s`. */
  function CountChar(s: string, c: char): nat {
    if s == [] then 0 else (if s[0] == c then 1 else 0) + CountChar(s[1..], c)
  }

  /**
   * Kotlin `s.split("\n")`: the pieces between newline characters. There is always
   * one more piece than there are newlines, so `""` splits into `[""]` and a trailing
   * newline yields a final empty piece.
   */
  function Split(s: string): (r: seq<string>)
    ensures |r| == CountChar(s, NL) + 1
    ensures forall i :: 0 <= i < |r| ==> NL !in r[i]
    ensures forall i, c :: 0 <= i < |r| && c in r[i] ==> c in s
    decreases |s|
  {
    if s == [] then [""]
    else
      var rest := Split(s[1..]);
      assert forall c :: c in s[1..] ==> c in s;
      if s[0] == NL then [""] + rest
      else [[s[0]] + rest[0]] + rest[1..]
  }

  /** Kotlin `ls.joinToString("\n")`: the lines separated (not terminated) by newlines. */
  function Join(ls: seq<string>): string
    decreases |ls|
  {
    if |ls| == 0 then ""
    else if |ls| == 1 then ls[0]
    else ls[0] + [NL] + Join(ls[1..])
  }

  /** Index of the first line terminator character of `s`, or `|s|` if there is none. */
  function LineEnd(s: string): (k: nat)
    ensures k <= |s|
    ensures k < |s| ==> IsBreak(s[k])
    ensures NoBreaks(s[..k])
    decreases |s|
  {
    if s == [] || IsBreak(s[0]) then 0
    else
      var k := 1 + LineEnd(s[1..]);
      assert s[..k] == [s[0]] + s[1..][..k - 1];
      k
  }

  /** Width of the terminator starting at `k`: `"\r\n"` counts as one terminator. */
  function BreakWidth(s: string, k: nat): (w: nat)
    requires k < |s|
    ensures 1 <= w <= |s| - k
  {
    if s[k] == CR && k + 1 < |s| && s[k + 1] == NL then 2 else 1
  }

  /**
   * Kotlin `File.readLines()`: lines end at `"\n"`, `"\r"` or `"\r\n"`, terminators are
   * dropped, and a terminator at the very end does not start another (empty) line.
   */
  function ReadLines(s: string): (r: seq<string>)
    ensures AllNoBreaks(r)
    ensures |r| == 0 <==> s == []
    decreases |s|
  {
    if s == [] then []
    else if LineEnd(s) == |s| then
      assert s[..|s|] == s;
      [s]
    else [s[..LineEnd(s)]] + ReadLines(NextLines(s))
  }

  /** The text after the first line and its terminator. */
  function NextLines(s: string): (t: string)
    requires LineEnd(s) < |s|
    ensures |t| < |s|
  {
    s[LineEnd(s) + BreakWidth(s, LineEnd(s))..]
  }

  /** `s` without one trailing newline, if it has one. */
  function Chomp(s: string): string {
    if |s| > 0 && s[|s| - 1] == NL then s[..|s| - 1] else s
  }

  /** Joining the pieces of a split gives the text back. */
  lemma {:induction false} JoinSplit(s: string)
    ensures Join(Split(s)) == s
    decreases |s|
  {
    if s != [] {
      var rest := Split(s[1..]);
      JoinSplit(s[1..]);
      if s[0] == NL {
        assert ([""] + rest)[1..] == rest;
        assert s == [NL] + s[1..];
      } else {
        var r := [[s[0]] + rest[0]] + rest[1..];
        assert r[1..] == rest[1..];
        if |rest| == 1 {
          assert s == [s[0]] + s[1..];
        } else {
          assert s == [s[0]] + s[1..];
        }
      }
    }
  }

  /** Splitting a newline-free prefix onto the split of the remainder. */
  lemma {:induction false} SplitPrefix(a: string, rest: string)
    requires NL !in a
    ensures Split(a + rest) == [a + Split(rest)[0]] + Split(rest)[1..]
    decreases |a|
  {
    var sr := Split(rest);
    if a != [] {
      assert (a + rest)[0] == a[0] && a[0] != NL;
      assert (a + rest)[1..] == a[1..] + rest;
      SplitPrefix(a[1..], rest);
      var r := Split(a[1..] + rest);
      assert r == [a[1..] + sr[0]] + sr[1..];
      assert Split(a + rest) == [[a[0]] + r[0]] + r[1..];
      assert [a[0]] + (a[1..] + sr[0]) == a + sr[0];
    } else {
      assert a + rest == rest;
      assert a + sr[0] == sr[0];
      assert [sr[0]] + sr[1..] == sr;
    }
  }

  /** Splitting joined newline-free lines gives the lines back. */
  lemma {:induction false} SplitJoin(ls: seq<string>)
    requires |ls| >= 1
    requires forall i :: 0 <= i < |ls| ==> NL !in ls[i]
    ensures Split(Join(ls)) == ls
    decreases |ls|, 1
  {
    if |ls| == 1 {
      SplitPrefix(ls[0], "");
      assert ls[0] + "" == ls[0];
      assert Split("") == [""];
      assert [ls[0] + ""] + [""][1..] == ls;
    } else {
      SplitJoinStep(ls);
    }
  }

  /** The step of `SplitJoin` for two or more lines. */
  lemma {:induction false} SplitJoinStep(ls: seq<string>)
    requires |ls| > 1
    requires forall i :: 0 <= i < |ls| ==> NL !in ls[i]
    ensures Split(Join(ls)) == ls
    decreases |ls|, 0
  {
    var rest := ls[1..];
    assert forall i :: 0 <= i < |rest| ==> NL !in rest[i] by {
      forall i | 0 <= i < |rest| ensures NL !in rest[i] {
        assert rest[i] == ls[i + 1];
      }
    }
    SplitJoin(rest);
    var j := Join(rest);
    JoinStep(ls);
    Associate(ls[0], [NL], j);
    SplitPrefix(ls[0], [NL] + j);
    SplitNewline(j);
    assert ls[0] + "" == ls[0];
    assert ls == [ls[0]] + rest;
  }

  /** A leading newline splits off an empty first piece. */
  lemma SplitNewline(j: string)
    ensures Split([NL] + j) == [""] + Split(j)
  {
    assert ([NL] + j)[1..] == j;
  }

  /** The first terminator of `a + rest` is past a terminator-free `a`. */
  lemma {:induction false} LineEndAppend(a: string, rest: string)
    requires NoBreaks(a)
    ensures LineEnd(a + rest) == |a| + LineEnd(rest)
    decreases |a|
  {
    if a == [] {
      assert a + rest == rest;
    } else {
      assert (a + rest)[1..] == a[1..] + rest;
      LineEndAppend(a[1..], rest);
    }
  }

  /** Reading a terminator-free line followed by a newline and more text. */
  lemma ReadAfterLine(a: string, j: string)
    requires NoBreaks(a)
    ensures ReadLines(a + [NL] + j) == [a] + ReadLines(j)
  {
    var s := a + [NL] + j;
    LineEndAppend(a, [NL] + j);
    assert s == a + ([NL] + j);
    assert s[|a|] == NL;
    assert s[|a| + 1..] == j;
    assert s[..|a|] == a;
  }

  /**
   * Reading back joined lines gives the lines, provided they hold no terminators and
   * the last one is not empty (a final empty line becomes a trailing newline, which
   * `readLines` does not report).
   */
  lemma {:induction false} ReadJoin(ls: seq<string>)
    requires AllNoBreaks(ls)
    requires ls == [] || ls[|ls| - 1] != ""
    ensures ReadLines(Join(ls)) == ls
    decreases |ls|, 1
  {
    if |ls| == 1 {
      LineEndAppend(ls[0], "");
      assert ls[0] + "" == ls[0];
    } else if |ls| > 1 {
      ReadJoinStep(ls);
    }
  }

  /** The step of `ReadJoin` for two or more lines. */
  lemma {:induction false} ReadJoinStep(ls: seq<string>)
    requires |ls| > 1 && AllNoBreaks(ls) && ls[|ls| - 1] != ""
    ensures ReadLines(Join(ls)) == ls
    decreases |ls|, 0
  {
    var rest := ls[1..];
    assert rest[|rest| - 1] == ls[|ls| - 1];
    TailNoBreaks(ls);
    ReadJoin(rest);
    assert NoBreaks(ls[0]);
    ReadAfterLine(ls[0], Join(rest));
    JoinStep(ls);
    assert ls == [ls[0]] + rest;
  }

  /** The lines after the first of terminator-free lines are terminator-free. */
  lemma TailNoBreaks(ls: seq<string>)
    requires |ls| > 0 && AllNoBreaks(ls)
    ensures AllNoBreaks(ls[1..])
  {
    forall i | 0 <= i < |ls| - 1 ensures NoBreaks(ls[1..][i]) {
      assert ls[1..][i] == ls[i + 1];
    }
  }

  /** Joining two or more lines puts the first in front of a newline and the rest. */
  lemma JoinStep(ls: seq<string>)
    requires |ls| > 1
    ensures Join(ls) == ls[0] + [NL] + Join(ls[1..])
  {
  }

  /**
   * For text without carriage returns, reading lines and joining them again loses
   * exactly one trailing newline: line edits drop the final newline of a file.
   */
  lemma {:induction false} JoinReadLines(s: string)
    requires CR !in s
    ensures Join(ReadLines(s)) == Chomp(s)
    decreases |s|, 1
  {
    if s != [] {
      var k := LineEnd(s);
      if k == |s| {
        assert s[..k] == s;
        assert !IsBreak(s[|s| - 1]);
      } else {
        JoinReadLinesStep(s, k);
      }
    }
  }

  /** The step of `JoinReadLines` at the first newline `k`. */
  lemma {:induction false} JoinReadLinesStep(s: string, k: nat)
    requires CR !in s && k == LineEnd(s) && k < |s|
    ensures Join(ReadLines(s)) == Chomp(s)
    decreases |s|, 0
  {
    var rest := s[k + 1..];
    assert CR !in rest by {
      forall i | 0 <= i < |rest| ensures rest[i] != CR {
        assert rest[i] == s[k + 1 + i];
      }
    }
    JoinReadLines(rest);
    ReadAtNewline(s, k);
    ChompAtNewline(s, k);
    if rest != [] {
      JoinCons(s[..k], ReadLines(rest));
    }
  }

  /** Reading lines past a first terminator that is a newline. */
  lemma ReadAtNewline(s: string, k: nat)
    requires CR !in s && k == LineEnd(s) && k < |s|
    ensures s[k] == NL
    ensures ReadLines(s) == [s[..k]] + ReadLines(s[k + 1..])
  {
    NewlineBreak(s, k);
    ReadUnfold(s);
  }

  /** Without carriage returns, the first terminator is a one-character newline. */
  lemma NewlineBreak(s: string, k: nat)
    requires CR !in s && k == LineEnd(s) && k < |s|
    ensures s[k] == NL && NextLines(s) == s[k + 1..]
  {
    assert s[k] in s;
  }

  /** `ReadLines` on a text whose first line ends before its end. */
  lemma ReadUnfold(s: string)
    requires s != [] && LineEnd(s) < |s|
    ensures ReadLines(s) == [s[..LineEnd(s)]] + ReadLines(NextLines(s))
  {
  }

  /** Chomping a text that has its first newline at `k`. */
  lemma ChompAtNewline(s: string, k: nat)
    requires k < |s| && s[k] == NL
    ensures s[k + 1..] == [] ==> Chomp(s) == s[..k]
    ensures s[k + 1..] != [] ==> Chomp(s) == s[..k] + [NL] + Chomp(s[k + 1..])
  {
    var rest := s[k + 1..];
    if rest == [] {
      assert s[..|s| - 1] == s[..k];
    } else {
      assert s == s[..k] + [NL] + rest;
      assert s[|s| - 1] == rest[|rest| - 1];
      if rest[|rest| - 1] == NL {
        assert s[..|s| - 1] == s[..k] + [NL] + rest[..|rest| - 1];
      }
    }
  }

  /** Joining a line in front of at least one more. */
  lemma JoinCons(a: string, ls: seq<string>)
    requires ls != []
    ensures Join([a] + ls) == a + [NL] + Join(ls)
  {
    assert ([a] + ls)[1..] == ls;
  }
}
