/**
 * Kotlin's literal (non-regex) substring replacement, `String.replaceFirst(old, new)`
 * and `String.replace(old, new)`, which the keyword strategy applies to a whole file.
 */
module Replace {
  import opened Wrappers
  import opened Seqs

  /**
   * `p` occurs in `s` starting at index `i`, compared character by character (the
   * empty `p` occurs at `0..|s|`).
   */
  predicate OccursAt(s: string, p: string, i: int) {
    0 <= i && i + |p| <= |s| && forall j :: 0 <= j < |p| ==> s[i + j] == p[j]
  }

  /** An occurrence is a slice equal to the keyword. */
  lemma OccursAtSlice(s: string, p: string, i: int)
    requires 0 <= i && i + |p| <= |s|
    ensures OccursAt(s, p, i) <==> s[i..i + |p|] == p
  {
    if OccursAt(s, p, i) {
      assert forall j :: 0 <= j < |p| ==> s[i..i + |p|][j] == p[j];
    }
    if s[i..i + |p|] == p {
      forall j | 0 <= j < |p| ensures s[i + j] == p[j] {
        assert s[i..i + |p|][j] == s[i + j];
      }
    }
  }

  /** `i` is the leftmost occurrence of `p` in `s` at or after index `from`. */
  predicate FirstFrom(s: string, p: string, from: int, i: int) {
    from <= i && OccursAt(s, p, i) && forall j :: from <= j < i ==> !OccursAt(s, p, j)
  }

  /** Kotlin `s.indexOf(p, from)` for `from <= |s|`: the leftmost occurrence from `from` on. */
  function IndexOf(s: string, p: string, from: nat): (r: Option<nat>)
    requires from <= |s|
    ensures r.Some? ==> FirstFrom(s, p, from, r.value)
    ensures r.None? ==> forall j :: from <= j ==> !OccursAt(s, p, j)
    ensures p == [] ==> r == Some(from)
    decreases |s| - from
  {
    if from + |p| > |s| then None
    else if OccursAt(s, p, from) then Some(from)
    else IndexOf(s, p, from + 1)
  }

  /**
   * Kotlin `s.replaceFirst(p, t)`: the leftmost occurrence of `p` becomes `t`; without
   * an occurrence the text is returned as it is. An empty `p` occurs at index 0, so
   * `t` is prepended.
   */
  function ReplaceFirst(s: string, p: string, t: string): (r: string)
    ensures (forall j :: !OccursAt(s, p, j)) ==> r == s
    ensures forall i :: FirstFrom(s, p, 0, i) ==> r == s[..i] + t + s[i + |p|..]
  {
    match IndexOf(s, p, 0)
    case None => s
    case Some(i) => s[..i] + t + s[i + |p|..]
  }

  /**
   * Kotlin `s.replace(p, t)` on the text from index `k` on: scanning left to right,
   * each occurrence of `p` that does not overlap an earlier replaced one becomes `t`.
   * The empty `p` occurs at every index, so `t` goes before every character and once
   * more at the end.
   */
  function ReplaceFrom(s: string, p: string, t: string, k: nat): string
    requires k <= |s|
    decreases |s| - k
  {
    if |p| == 0 then
      if k == |s| then t else t + [s[k]] + ReplaceFrom(s, p, t, k + 1)
    else if |s| - k < |p| then s[k..]
    else if OccursAt(s, p, k) then t + ReplaceFrom(s, p, t, k + |p|)
    else [s[k]] + ReplaceFrom(s, p, t, k + 1)
  }

  /** Kotlin `s.replace(p, t)`: the reference definition of global replacement. */
  function ReplaceAll(s: string, p: string, t: string): string {
    ReplaceFrom(s, p, t, 0)
  }

  /** The scan at an occurrence of a non-empty keyword: `t`, then the scan past it. */
  lemma MatchUnfold(s: string, p: string, t: string, n: nat)
    requires |p| > 0 && OccursAt(s, p, n)
    ensures ReplaceFrom(s, p, t, n) == t + ReplaceFrom(s, p, t, n + |p|)
  {
  }

  /** The scan at a character that starts no occurrence, or before it for the empty keyword. */
  lemma CopyUnfold(s: string, p: string, t: string, n: nat)
    requires n < |s|
    requires |p| > 0 ==> n + |p| <= |s| && !OccursAt(s, p, n)
    ensures ReplaceFrom(s, p, t, n) == (if |p| == 0 then t else []) + [s[n]] + ReplaceFrom(s, p, t, n + 1)
  {
    if |p| > 0 {
      assert [] + [s[n]] == [s[n]];
    }
  }

  /** How many occurrences `ReplaceFrom` replaces from index `k` on. */
  function OccurrencesFrom(s: string, p: string, k: nat): nat
    requires k <= |s|
    decreases |s| - k
  {
    if |p| == 0 then |s| - k + 1
    else if |s| - k < |p| then 0
    else if OccursAt(s, p, k) then 1 + OccurrencesFrom(s, p, k + |p|)
    else OccurrencesFrom(s, p, k + 1)
  }

  /** How many occurrences `ReplaceAll` replaces. */
  function Occurrences(s: string, p: string): nat {
    OccurrencesFrom(s, p, 0)
  }

  /** Without an occurrence from `k` on, the rest of the text is copied unchanged. */
  lemma {:induction false} NoOccurrenceFrom(s: string, p: string, t: string, k: nat)
    requires |p| > 0 && k <= |s|
    requires forall j :: k <= j ==> !OccursAt(s, p, j)
    ensures ReplaceFrom(s, p, t, k) == s[k..]
    decreases |s| - k
  {
    if |s| - k >= |p| {
      assert !OccursAt(s, p, k);
      NoOccurrenceFrom(s, p, t, k + 1);
      assert s[k..] == [s[k]] + s[k + 1..];
    }
  }

  /** Text with no occurrence of `p` is left as it is (and `p` cannot be empty). */
  lemma ReplaceAllNoOccurrence(s: string, p: string, t: string)
    requires forall j :: !OccursAt(s, p, j)
    ensures ReplaceAll(s, p, t) == s
  {
    if |p| == 0 {
      assert OccursAt(s, p, 0);
    } else {
      NoOccurrenceFrom(s, p, t, 0);
    }
  }

  /** Up to the next occurrence `n` of a non-empty `p`, the text is copied unchanged. */
  lemma {:induction false} SkipFrom(s: string, p: string, t: string, k: nat, n: nat)
    requires |p| > 0 && k <= n <= |s|
    requires forall j :: k <= j < n ==> !OccursAt(s, p, j)
    ensures ReplaceFrom(s, p, t, k) == s[k..n] + ReplaceFrom(s, p, t, n)
    decreases n - k, 1
  {
    if k == n {
      assert s[k..n] == [];
    } else if |s| - k < |p| {
      assert s[k..] == s[k..n] + s[n..];
    } else {
      SkipCopy(s, p, t, k, n);
    }
  }

  /** The step of `SkipFrom` over one character that starts no occurrence. */
  lemma {:induction false} SkipCopy(s: string, p: string, t: string, k: nat, n: nat)
    requires |p| > 0 && k < n <= |s| && k + |p| <= |s|
    requires forall j :: k <= j < n ==> !OccursAt(s, p, j)
    ensures ReplaceFrom(s, p, t, k) == s[k..n] + ReplaceFrom(s, p, t, n)
    decreases n - k, 0
  {
    var rest := s[k + 1..n] + ReplaceFrom(s, p, t, n);
    SkipFrom(s, p, t, k + 1, n);
    CopyUnfold(s, p, t, k);
    assert (if |p| == 0 then t else []) + [s[k]] == [s[k]];
    SliceCons(s, k, n, ReplaceFrom(s, p, t, n));
    Rejoin(ReplaceFrom(s, p, t, k), ReplaceFrom(s, p, t, k + 1), rest, [s[k]], s[k..n] + ReplaceFrom(s, p, t, n));
  }

  /** `u` is the text of `s` from index `k` on. */
  ghost predicate ShiftedBy(s: string, u: string, k: nat) {
    k + |u| == |s| && forall i :: 0 <= i < |u| ==> u[i] == s[k + i]
  }

  /** Occurrences in `u` are the occurrences in `s`, shifted by `k`. */
  lemma OccursShifted(s: string, u: string, p: string, k: nat, j: nat)
    requires ShiftedBy(s, u, k)
    ensures OccursAt(u, p, j) <==> OccursAt(s, p, k + j)
  {
  }

  /** Replacing in `s` from `k + j` is replacing in `u` from `j` when `u` is `s` shifted by `k`. */
  lemma {:induction false} ReplaceFromShift(s: string, u: string, p: string, t: string, k: nat, j: nat)
    requires ShiftedBy(s, u, k) && j <= |u|
    ensures ReplaceFrom(s, p, t, k + j) == ReplaceFrom(u, p, t, j)
    decreases |u| - j, 1
  {
    OccursShifted(s, u, p, k, j);
    if (|p| == 0 && j == |u|) || (|p| > 0 && |u| - j < |p|) {
      assert u[j..] == s[k + j..];
    } else if |p| > 0 && OccursAt(u, p, j) {
      ShiftMatch(s, u, p, t, k, j);
    } else {
      ShiftCopy(s, u, p, t, k, j);
    }
  }

  /** The step past one character, taken on both sides alike. */
  lemma {:induction false} ShiftCopy(s: string, u: string, p: string, t: string, k: nat, j: nat)
    requires ShiftedBy(s, u, k) && j < |u|
    requires |p| > 0 ==> j + |p| <= |u| && !OccursAt(s, p, k + j)
    ensures ReplaceFrom(s, p, t, k + j) == ReplaceFrom(u, p, t, j)
    decreases |u| - j, 0
  {
    var n := k + j;
    ReplaceFromShift(s, u, p, t, k, j + 1);
    OccursShifted(s, u, p, k, j);
    assert k + (j + 1) == n + 1;
    assert u[j] == s[n];
    CopyUnfold(s, p, t, n);
    CopyUnfold(u, p, t, j);
    Rejoin(ReplaceFrom(s, p, t, n), ReplaceFrom(s, p, t, n + 1), ReplaceFrom(u, p, t, j + 1),
           (if |p| == 0 then t else []) + [s[n]], ReplaceFrom(u, p, t, j));
  }

  /** The step over an occurrence, taken on both sides alike. */
  lemma {:induction false} ShiftMatch(s: string, u: string, p: string, t: string, k: nat, j: nat)
    requires ShiftedBy(s, u, k) && |p| > 0 && OccursAt(u, p, j)
    ensures ReplaceFrom(s, p, t, k + j) == ReplaceFrom(u, p, t, j)
    decreases |u| - j, 0
  {
    var n := k + j;
    ReplaceFromShift(s, u, p, t, k, j + |p|);
    OccursShifted(s, u, p, k, j);
    assert k + (j + |p|) == n + |p|;
    MatchUnfold(s, p, t, n);
    MatchUnfold(u, p, t, j);
    Rejoin(ReplaceFrom(s, p, t, n), ReplaceFrom(s, p, t, n + |p|), ReplaceFrom(u, p, t, j + |p|), t, ReplaceFrom(u, p, t, j));
  }

  /** Replacing from index `k + j` of `s` is replacing from index `j` of `s[k..]`. */
  lemma ReplaceFromSuffix(s: string, p: string, t: string, k: nat, j: nat)
    requires k + j <= |s|
    ensures ReplaceFrom(s, p, t, k + j) == ReplaceFrom(s[k..], p, t, j)
  {
    ReplaceFromShift(s, s[k..], p, t, k, j);
  }

  /**
   * Replacing all occurrences is the first replacement followed by replacing all in
   * the rest of the text: `replace` continues where `replaceFirst` stops.
   */
  lemma ReplaceAllFirstStep(s: string, p: string, t: string, i: nat)
    requires |p| > 0 && FirstFrom(s, p, 0, i)
    ensures ReplaceAll(s, p, t) == s[..i] + t + ReplaceAll(s[i + |p|..], p, t)
    ensures ReplaceAll(s, p, t) == ReplaceFirst(s, p, t)[..i + |t|] + ReplaceAll(s[i + |p|..], p, t)
  {
    ScanToFirst(s, p, t, i);
    Associate(s[..i], t, ReplaceAll(s[i + |p|..], p, t));
    FirstPrefix(s, p, t, i);
  }

  /** The scan copies the text before the first occurrence, then replaces it. */
  lemma ScanToFirst(s: string, p: string, t: string, i: nat)
    requires |p| > 0 && FirstFrom(s, p, 0, i)
    ensures ReplaceAll(s, p, t) == s[..i] + (t + ReplaceAll(s[i + |p|..], p, t))
  {
    SkipFrom(s, p, t, 0, i);
    MatchRest(s, p, t, i);
    assert s[0..i] == s[..i];
    Rejoin(ReplaceFrom(s, p, t, 0), ReplaceFrom(s, p, t, i), t + ReplaceAll(s[i + |p|..], p, t),
           s[..i], s[..i] + (t + ReplaceAll(s[i + |p|..], p, t)));
  }

  /** At an occurrence the scan emits `t` and goes on as global replacement of the rest. */
  lemma MatchRest(s: string, p: string, t: string, i: nat)
    requires |p| > 0 && OccursAt(s, p, i)
    ensures ReplaceFrom(s, p, t, i) == t + ReplaceAll(s[i + |p|..], p, t)
  {
    MatchUnfold(s, p, t, i);
    ReplaceFromRest(s, p, t, i + |p|);
  }

  /** The scan from `m` on is global replacement in the rest of the text. */
  lemma ReplaceFromRest(s: string, p: string, t: string, m: nat)
    requires m <= |s|
    ensures ReplaceFrom(s, p, t, m) == ReplaceAll(s[m..], p, t)
  {
    ReplaceFromSuffix(s, p, t, m, 0);
    assert m + 0 == m;
  }

  /** `replaceFirst` puts `t` right after the text before the first occurrence. */
  lemma FirstPrefix(s: string, p: string, t: string, i: nat)
    requires FirstFrom(s, p, 0, i)
    ensures ReplaceFirst(s, p, t)[..i + |t|] == s[..i] + t
  {
    var first := ReplaceFirst(s, p, t);
    assert first == s[..i] + t + s[i + |p|..];
  }

  /** Replacing from `k` with the keyword itself copies the rest of the text. */
  lemma {:induction false} ReplaceFromSelf(s: string, p: string, k: nat)
    requires k <= |s|
    ensures ReplaceFrom(s, p, p, k) == s[k..]
    decreases |s| - k, 1
  {
    if |p| == 0 && k == |s| {
      assert s[k..] == p;
    } else if |p| > 0 && |s| - k < |p| {
    } else if |p| > 0 && OccursAt(s, p, k) {
      SelfMatch(s, p, k);
    } else {
      SelfCopy(s, p, k);
    }
  }

  /** One character that is not replaced, or the empty keyword inserted as nothing. */
  lemma {:induction false} SelfCopy(s: string, p: string, k: nat)
    requires k < |s|
    requires |p| > 0 ==> k + |p| <= |s| && !OccursAt(s, p, k)
    ensures ReplaceFrom(s, p, p, k) == s[k..]
    decreases |s| - k, 0
  {
    ReplaceFromSelf(s, p, k + 1);
    CopyUnfold(s, p, p, k);
    assert (if |p| == 0 then p else []) + [s[k]] == [s[k]];
    assert s[k..] == [s[k]] + s[k + 1..];
  }

  /** An occurrence replaced by itself. */
  lemma {:induction false} SelfMatch(s: string, p: string, k: nat)
    requires |p| > 0 && OccursAt(s, p, k)
    ensures ReplaceFrom(s, p, p, k) == s[k..]
    decreases |s| - k, 0
  {
    var n := k + |p|;
    assert n <= |s|;
    ReplaceFromSelf(s, p, n);
    MatchUnfold(s, p, p, k);
    RestAtOccurrence(s, p, k);
    Rejoin(ReplaceFrom(s, p, p, k), ReplaceFrom(s, p, p, k + |p|), s[k + |p|..], p, s[k..]);
  }

  /** From an occurrence on, the text is the keyword followed by what comes after it. */
  lemma RestAtOccurrence(s: string, p: string, k: nat)
    requires OccursAt(s, p, k)
    ensures s[k..] == p + s[k + |p|..]
  {
    OccursAtSlice(s, p, k);
    assert s[k..] == s[k..k + |p|] + s[k + |p|..];
  }

  /** Replacing the keyword by itself, globally, leaves the text unchanged. */
  lemma ReplaceAllSelf(s: string, p: string)
    ensures ReplaceAll(s, p, p) == s
  {
    ReplaceFromSelf(s, p, 0);
  }

  /** Replacing the first occurrence by itself leaves the text unchanged. */
  lemma ReplaceFirstSelf(s: string, p: string)
    ensures ReplaceFirst(s, p, p) == s
  {
    var r := IndexOf(s, p, 0);
    if r.Some? {
      var i := r.value;
      OccursAtSlice(s, p, i);
      assert s == s[..i] + s[i..i + |p|] + s[i + |p|..];
    }
  }

  lemma MulStep(o: nat, d: int)
    ensures (1 + o) * d == d + o * d
  {
  }

  /** Each replaced occurrence from `k` on changes the length by `|t| - |p|`. */
  lemma {:induction false} ReplaceFromLength(s: string, p: string, t: string, k: nat)
    requires k <= |s|
    ensures |ReplaceFrom(s, p, t, k)| == |s| - k + OccurrencesFrom(s, p, k) * (|t| - |p|)
    decreases |s| - k, 1
  {
    if (|p| == 0 && k == |s|) || (|p| > 0 && |s| - k < |p|) {
      EndLength(s, p, t, k);
    } else if |p| > 0 && OccursAt(s, p, k) {
      LengthMatch(s, p, t, k);
    } else {
      LengthCopy(s, p, t, k);
    }
  }

  /** The length from an occurrence of a non-empty keyword. */
  lemma {:induction false} LengthMatch(s: string, p: string, t: string, k: nat)
    requires |p| > 0 && OccursAt(s, p, k)
    ensures |ReplaceFrom(s, p, t, k)| == |s| - k + OccurrencesFrom(s, p, k) * (|t| - |p|)
    decreases |s| - k, 0
  {
    ReplaceFromLength(s, p, t, k + |p|);
    ReplacedLength(s, p, t, k, k + |p|);
  }

  /** The length from a character that starts no occurrence, or from any one for the empty keyword. */
  lemma {:induction false} LengthCopy(s: string, p: string, t: string, k: nat)
    requires k < |s|
    requires |p| > 0 ==> k + |p| <= |s| && !OccursAt(s, p, k)
    ensures |ReplaceFrom(s, p, t, k)| == |s| - k + OccurrencesFrom(s, p, k) * (|t| - |p|)
    decreases |s| - k, 0
  {
    ReplaceFromLength(s, p, t, k + 1);
    if |p| == 0 {
      ReplacedLength(s, p, t, k, k + 1);
    } else {
      CopiedLength(s, p, t, k);
    }
  }

  /** The length where the scan stops: the end of `s`, or a rest shorter than `p`. */
  lemma EndLength(s: string, p: string, t: string, k: nat)
    requires k <= |s|
    requires if |p| == 0 then k == |s| else |s| - k < |p|
    ensures |ReplaceFrom(s, p, t, k)| == |s| - k + OccurrencesFrom(s, p, k) * (|t| - |p|)
  {
  }

  /** The length step for an occurrence at `k` after which the scan resumes at `n`. */
  lemma ReplacedLength(s: string, p: string, t: string, k: nat, n: nat)
    requires k < n <= |s|
    requires (|p| == 0 && n == k + 1) || (|p| > 0 && n == k + |p| && OccursAt(s, p, k))
    requires |ReplaceFrom(s, p, t, n)| == |s| - n + OccurrencesFrom(s, p, n) * (|t| - |p|)
    ensures |ReplaceFrom(s, p, t, k)| == |s| - k + OccurrencesFrom(s, p, k) * (|t| - |p|)
  {
    var o := OccurrencesFrom(s, p, n);
    assert OccurrencesFrom(s, p, k) == 1 + o;
    assert |ReplaceFrom(s, p, t, k)| == |t| + (n - k - |p|) + |ReplaceFrom(s, p, t, n)|;
    MulStep(o, |t| - |p|);
  }

  /** The length step for a character at `k` that is copied. */
  lemma CopiedLength(s: string, p: string, t: string, k: nat)
    requires |p| > 0 && k + |p| <= |s| && !OccursAt(s, p, k)
    requires |ReplaceFrom(s, p, t, k + 1)| == |s| - (k + 1) + OccurrencesFrom(s, p, k + 1) * (|t| - |p|)
    ensures |ReplaceFrom(s, p, t, k)| == |s| - k + OccurrencesFrom(s, p, k) * (|t| - |p|)
  {
    assert OccurrencesFrom(s, p, k) == OccurrencesFrom(s, p, k + 1);
    assert |ReplaceFrom(s, p, t, k)| == 1 + |ReplaceFrom(s, p, t, k + 1)|;
  }

  /**
   * Global replacement changes the length by `|t| - |p|` for every one of the
   * occurrences it replaces.
   */
  lemma ReplaceAllLength(s: string, p: string, t: string)
    ensures |ReplaceAll(s, p, t)| == |s| + Occurrences(s, p) * (|t| - |p|)
  {
    ReplaceFromLength(s, p, t, 0);
  }

  /** First-occurrence replacement changes the length at most once. */
  lemma ReplaceFirstLength(s: string, p: string, t: string)
    ensures (exists j :: OccursAt(s, p, j)) ==> |ReplaceFirst(s, p, t)| == |s| + |t| - |p|
    ensures (forall j :: !OccursAt(s, p, j)) ==> |ReplaceFirst(s, p, t)| == |s|
  {
  }

  /**
   * One turn of the `replace` loop: from the occurrence at `idx`, the next search
   * starts `max(|p|, 1)` characters on and finds `next`.
   */
  lemma ReplaceLoopStep(s: string, p: string, t: string, idx: nat, next: nat)
    requires idx < |s| && OccursAt(s, p, idx)
    requires FirstFrom(s, p, idx + (if |p| > 0 then |p| else 1), next)
    ensures ReplaceFrom(s, p, t, idx) == t + s[idx + |p|..next] + ReplaceFrom(s, p, t, next)
  {
    if |p| == 0 {
      assert OccursAt(s, p, idx + 1);
      assert next == idx + 1 && idx + |p| == idx;
      assert s[idx..idx + 1] == [s[idx]];
    } else {
      SkipFrom(s, p, t, idx + |p|, next);
      Associate(t, s[idx + |p|..next], ReplaceFrom(s, p, t, next));
    }
  }

  /** The last turn of the `replace` loop: no occurrence after the one at `idx`. */
  lemma ReplaceLoopLast(s: string, p: string, t: string, idx: nat)
    requires idx <= |s| && OccursAt(s, p, idx)
    requires idx == |s| || forall j :: idx + (if |p| > 0 then |p| else 1) <= j ==> !OccursAt(s, p, j)
    ensures ReplaceFrom(s, p, t, idx) == t + s[idx + |p|..]
  {
    if |p| == 0 {
      if idx < |s| {
        assert OccursAt(s, p, idx + 1);
      }
      assert ReplaceFrom(s, p, t, idx) == t;
      assert s[idx + |p|..] == [];
    } else {
      assert ReplaceFrom(s, p, t, idx) == t + ReplaceFrom(s, p, t, idx + |p|);
      NoOccurrenceFrom(s, p, t, idx + |p|);
    }
  }

  /**
   * The loop invariant survives a turn that finds the next occurrence `next`: `out`
   * and `from` are the output and copy position after the turn.
   */
  lemma LoopAdvance(s: string, p: string, t: string, acc: string, idx: nat, next: nat, out: string, from: nat)
    requires idx < |s| && OccursAt(s, p, idx)
    requires FirstFrom(s, p, idx + (if |p| > 0 then |p| else 1), next)
    requires acc + ReplaceFrom(s, p, t, idx) == ReplaceAll(s, p, t)
    requires out == acc + t && from == idx + |p|
    ensures from <= next <= |s|
    ensures out + s[from..next] + ReplaceFrom(s, p, t, next) == ReplaceAll(s, p, t)
  {
    ReplaceLoopStep(s, p, t, idx, next);
    Associate(acc, t + s[idx + |p|..next], ReplaceFrom(s, p, t, next));
    Associate(acc, t, s[idx + |p|..next]);
  }

  /** The loop's output is complete once no further occurrence is found. */
  lemma LoopFinish(s: string, p: string, t: string, acc: string, idx: nat, out: string, from: nat)
    requires idx <= |s| && OccursAt(s, p, idx)
    requires idx == |s| || forall j :: idx + (if |p| > 0 then |p| else 1) <= j ==> !OccursAt(s, p, j)
    requires acc + ReplaceFrom(s, p, t, idx) == ReplaceAll(s, p, t)
    requires out == acc + t && from == idx + |p|
    ensures from <= |s|
    ensures out + s[from..] == ReplaceAll(s, p, t)
  {
    ReplaceLoopLast(s, p, t, idx);
    Associate(acc, t, s[idx + |p|..]);
  }

  /**
   * The `replace` algorithm of the Kotlin standard library: find an occurrence, copy
   * the text before it and `t`, search again one keyword length (at least one
   * character) further on, and stop when there is no further occurrence or the end
   * of the text has been matched. It computes the reference `ReplaceAll`.
   */
  method ReplaceLoop(s: string, p: string, t: string) returns (r: string)
    ensures r == ReplaceAll(s, p, t)
  {
    var occ := IndexOf(s, p, 0);
    if occ.None? {
      ReplaceAllNoOccurrence(s, p, t);
      return s;
    }
    var step := if |p| > 0 then |p| else 1;
    var sb := "";
    var i: nat := 0;
    var idx := occ.value;
    if |p| > 0 {
      SkipFrom(s, p, t, 0, idx);
    }
    assert sb + s[i..idx] == s[0..idx];
    while true
      invariant 0 <= i <= idx <= |s|
      invariant OccursAt(s, p, idx)
      invariant sb + s[i..idx] + ReplaceFrom(s, p, t, idx) == ReplaceAll(s, p, t)
      decreases |s| - idx
    {
      var acc := sb + s[i..idx];
      sb := acc + t;
      i := idx + |p|;
      if idx >= |s| {
        LoopFinish(s, p, t, acc, idx, sb, i);
        return sb + s[i..];
      }
      var next := IndexOf(s, p, idx + step);
      if next.None? {
        LoopFinish(s, p, t, acc, idx, sb, i);
        return sb + s[i..];
      }
      LoopAdvance(s, p, t, acc, idx, next.value, sb, i);
      idx := next.value;
    }
  }
}
