/** Python behaviour the script relies on: its exceptions as a Result, the
    two-way `str.split(sep, 1)`, and two predicates over lists. */
module PyBase {

  /** The exceptions the modelled code can raise and does not catch. */
  datatype PyError = IndexError

  datatype Option<+T> = None | Some(value: T)

  datatype Result<+T> = Success(value: T) | Failure(error: PyError)

  /** `sep` starts at index `i` of `s`. */
  predicate OccursAt(s: string, sep: string, i: int)
  {
    0 <= i && i + |sep| <= |s| && s[i..i + |sep|] == sep
  }

  predicate Occurs(s: string, sep: string)
  {
    exists i :: 0 <= i <= |s| && OccursAt(s, sep, i)
  }

  /** `i` is the leftmost place where `sep` starts in `s`. */
  predicate FirstOccurrence(s: string, sep: string, i: int)
  {
    OccursAt(s, sep, i) && forall j :: 0 <= j < i ==> !OccursAt(s, sep, j)
  }

  lemma OccursAtShift(s: string, sep: string, i: int)
    requires |s| > 0 && i >= 0
    ensures OccursAt(s, sep, i + 1) <==> OccursAt(s[1..], sep, i)
  {
    if 0 <= i && i + 1 + |sep| <= |s| {
      assert s[1..][i..i + |sep|] == s[i + 1..i + 1 + |sep|];
    }
  }

  lemma FirstOccurrenceUnique(s: string, sep: string, i: int, j: int)
    requires FirstOccurrence(s, sep, i) && FirstOccurrence(s, sep, j)
    ensures i == j
  {
  }

  /** A one-character separator occurs exactly where that character is. */
  lemma OccursAtChar(s: string, c: char, i: int)
    ensures OccursAt(s, [c], i) <==> 0 <= i < |s| && s[i] == c
  {
    if 0 <= i < |s| {
      assert s[i..i + 1] == [s[i]];
    }
  }

  /** Python's `s.split(sep, 1)`: `[s]` when `sep` does not occur, otherwise the
      text before and the text after the leftmost occurrence (SplitOnceCorrect). */
  function SplitOnce(s: string, sep: string): (parts: seq<string>)
    requires sep != []
    ensures 1 <= |parts| <= 2
    ensures |parts| == 1 ==> parts[0] == s
    decreases |s|
  {
    if |s| < |sep| then
      [s]
    else if s[..|sep|] == sep then
      ["", s[|sep|..]]
    else
      var rest := SplitOnce(s[1..], sep);
      if |rest| == 1 then [s] else [[s[0]] + rest[0], rest[1]]
  }

  /** `parts` is what `s.split(sep, 1)` returns. */
  predicate IsSplitOnce(s: string, sep: string, parts: seq<string>)
  {
    && 1 <= |parts| <= 2
    && (|parts| == 1 <==> !Occurs(s, sep))
    && (|parts| == 1 ==> parts[0] == s)
    && (|parts| == 2 ==> s == parts[0] + sep + parts[1] && FirstOccurrence(s, sep, |parts[0]|))
  }

  lemma {:induction false} SplitOnceCorrect(s: string, sep: string)
    requires sep != []
    ensures IsSplitOnce(s, sep, SplitOnce(s, sep))
    decreases |s|
  {
    if |s| < |sep| {
    } else if s[..|sep|] == sep {
      assert OccursAt(s, sep, 0);
      assert s == s[..|sep|] + s[|sep|..];
    } else {
      SplitOnceCorrect(s[1..], sep);
      SplitOnceStep(s, sep, SplitOnce(s[1..], sep));
    }
  }

  /** A split of `s[1..]` gives the split of `s` when `sep` does not start `s`. */
  lemma SplitOnceStep(s: string, sep: string, rest: seq<string>)
    requires sep != [] && |s| >= |sep| && s[..|sep|] != sep
    requires IsSplitOnce(s[1..], sep, rest)
    ensures IsSplitOnce(s, sep, if |rest| == 1 then [s] else [[s[0]] + rest[0], rest[1]])
  {
    assert !OccursAt(s, sep, 0);
    if |rest| == 1 {
      NoOccurrenceShift(s, sep);
    } else {
      FirstOccurrenceShift(s, sep, |rest[0]|);
      var before := [s[0]] + rest[0];
      calc {
        s;
        [s[0]] + s[1..];
        [s[0]] + (rest[0] + sep + rest[1]);
        { assert [s[0]] + (rest[0] + sep + rest[1]) == ([s[0]] + rest[0]) + sep + rest[1]; }
        before + sep + rest[1];
      }
    }
  }

  lemma NoOccurrenceShift(s: string, sep: string)
    requires |s| > 0 && !OccursAt(s, sep, 0) && !Occurs(s[1..], sep)
    ensures !Occurs(s, sep)
  {
    forall i | 0 < i <= |s| ensures !OccursAt(s, sep, i) {
      OccursAtShift(s, sep, i - 1);
    }
  }

  lemma FirstOccurrenceShift(s: string, sep: string, k: int)
    requires |s| > 0 && !OccursAt(s, sep, 0) && FirstOccurrence(s[1..], sep, k)
    ensures FirstOccurrence(s, sep, k + 1)
  {
    OccursAtShift(s, sep, k);
    forall j | 0 < j < k + 1 ensures !OccursAt(s, sep, j) {
      OccursAtShift(s, sep, j - 1);
    }
  }

  /** When the leftmost occurrence of `sep` is at `i`, the split is the text
      before `i` and the text after the separator. */
  lemma SplitOnceAt(s: string, sep: string, i: int)
    requires sep != [] && FirstOccurrence(s, sep, i)
    ensures SplitOnce(s, sep) == [s[..i], s[i + |sep|..]]
  {
    SplitOnceCorrect(s, sep);
    var parts := SplitOnce(s, sep);
    assert Occurs(s, sep) by { assert 0 <= i <= |s| && OccursAt(s, sep, i); }
    assert |parts| == 2;
    var before, after := parts[0], parts[1];
    FirstOccurrenceUnique(s, sep, i, |before|);
    assert s == before + sep + after;
    assert s[..i] == before;
    assert s[i + |sep|..] == after;
  }

  /** `s` is obtained from `t` by deleting elements: order and multiplicity kept. */
  predicate IsSubsequence<T(==)>(s: seq<T>, t: seq<T>)
    decreases |t|
  {
    if s == [] then true
    else if t == [] then false
    else if s[0] == t[0] then IsSubsequence(s[1..], t[1..])
    else IsSubsequence(s, t[1..])
  }

  lemma {:induction false} SubsequenceExtend<T>(s: seq<T>, t: seq<T>, x: T, keep: bool)
    requires IsSubsequence(s, t)
    ensures IsSubsequence(if keep then s + [x] else s, t + [x])
    decreases |t|
  {
    if s == [] {
      if keep {
        SubsequenceSingleton(x, t);
        assert s + [x] == [x];
      }
    } else {
      assert t != [];
      assert (t + [x])[1..] == t[1..] + [x];
      if s[0] == t[0] {
        SubsequenceExtend(s[1..], t[1..], x, keep);
        if keep { assert (s + [x])[1..] == s[1..] + [x]; }
      } else {
        SubsequenceExtend(s, t[1..], x, keep);
      }
    }
  }

  lemma {:induction false} SubsequenceSingleton<T>(x: T, t: seq<T>)
    ensures IsSubsequence([x], t + [x])
    decreases |t|
  {
    if t != [] && t[0] != x {
      assert (t + [x])[1..] == t[1..] + [x];
      SubsequenceSingleton(x, t[1..]);
    } else if t != [] {
      assert [x][1..] == [];
    }
  }

  /** No element occurs twice. */
  predicate NoDup<T(==)>(s: seq<T>)
  {
    forall i, j :: 0 <= i < j < |s| ==> s[i] != s[j]
  }
}
