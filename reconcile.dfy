/** Reconciliation of slug lists: which remote slugs are missing locally
    (`get_songs_needed`) and the in-place union of two lists
    (`deduplicate`). */
module Reconcile {
  import opened PyBase

  // ---------------------------------------------------------------------
  // get_songs_needed

  /** The remote slugs, in remote order and with their repetitions, that
      are not in `local`. */
  function Needed(local: seq<string>, remote: seq<string>): seq<string>
  {
    if remote == [] then []
    else
      var before := Needed(local, remote[..|remote| - 1]);
      var song := remote[|remote| - 1];
      if song in local then before else before + [song]
  }

  /** `get_songs_needed(local_songs, remote_songs)`. */
  method GetSongsNeeded(local: seq<string>, remote: seq<string>) returns (needed: seq<string>)
    ensures needed == Needed(local, remote)
  {
    needed := [];
    for i := 0 to |remote|
      invariant needed == Needed(local, remote[..i])
    {
      assert remote[..i + 1][..i] == remote[..i];
      var song := remote[i];
      if song !in local {
        needed := needed + [song];
      }
    }
    assert remote[..|remote|] == remote;
  }

  /** A slug is needed exactly when the remote list has it and the local
      list does not. */
  lemma {:induction false} NeededMembers(local: seq<string>, remote: seq<string>, x: string)
    ensures x in Needed(local, remote) <==> x in remote && x !in local
  {
    if remote != [] {
      var init := remote[..|remote| - 1];
      NeededMembers(local, init, x);
      assert remote == init + [remote[|remote| - 1]];
    }
  }

  /** The needed list is the remote list with elements deleted: remote
      order is kept. */
  lemma {:induction false} NeededSubsequence(local: seq<string>, remote: seq<string>)
    ensures IsSubsequence(Needed(local, remote), remote)
  {
    if remote != [] {
      var init := remote[..|remote| - 1];
      var song := remote[|remote| - 1];
      NeededSubsequence(local, init);
      SubsequenceExtend(Needed(local, init), init, song, song !in local);
      assert remote == init + [song];
    }
  }

  /** Multiplicity is kept: a slug missing locally appears as often as in
      the remote list, a local slug not at all. */
  lemma {:induction false} NeededCount(local: seq<string>, remote: seq<string>, x: string)
    ensures multiset(Needed(local, remote))[x] == if x in local then 0 else multiset(remote)[x]
  {
    if remote != [] {
      var init := remote[..|remote| - 1];
      var song := remote[|remote| - 1];
      NeededCount(local, init, x);
      assert remote == init + [song];
    }
  }

  /** Reconciling a concatenation is reconciling each part. */
  lemma {:induction false} NeededConcat(local: seq<string>, a: seq<string>, b: seq<string>)
    ensures Needed(local, a + b) == Needed(local, a) + Needed(local, b)
    decreases |b|
  {
    if b == [] {
      assert a + b == a;
    } else {
      var init := b[..|b| - 1];
      NeededConcat(local, a, init);
      assert (a + b)[..|a + b| - 1] == a + init;
      assert (a + b)[|a + b| - 1] == b[|b| - 1];
    }
  }

  /** Nothing is needed exactly when every remote slug is local. */
  lemma NeededEmpty(local: seq<string>, remote: seq<string>)
    ensures Needed(local, remote) == [] <==> forall x :: x in remote ==> x in local
  {
    if Needed(local, remote) != [] {
      NeededMembers(local, remote, Needed(local, remote)[0]);
    }
    forall x | x in remote && x !in local ensures Needed(local, remote) != [] {
      NeededMembers(local, remote, x);
    }
  }

  /** Reconciling again, against the local list extended by what was
      needed, needs nothing. */
  lemma NeededIdempotent(local: seq<string>, remote: seq<string>)
    ensures Needed(local + Needed(local, remote), remote) == []
  {
    var extended := local + Needed(local, remote);
    forall x | x in remote ensures x in extended {
      NeededMembers(local, remote, x);
    }
    NeededEmpty(extended, remote);
  }

  // ---------------------------------------------------------------------
  // deduplicate

  /** `acc` followed by the items of `xs` not yet present, each the first
      time it is met. */
  function DedupAppend(acc: seq<string>, xs: seq<string>): seq<string>
    decreases |xs|
  {
    if xs == [] then acc
    else DedupAppend(if xs[0] in acc then acc else acc + [xs[0]], xs[1..])
  }

  /** The original list stays an unchanged prefix, and only items absent
      from it are appended. */
  lemma {:induction false} DedupAppendExtends(acc: seq<string>, xs: seq<string>)
    ensures |acc| <= |DedupAppend(acc, xs)| && DedupAppend(acc, xs)[..|acc|] == acc
    ensures forall k :: |acc| <= k < |DedupAppend(acc, xs)| ==> DedupAppend(acc, xs)[k] !in acc
    decreases |xs|
  {
    if xs != [] {
      var next := if xs[0] in acc then acc else acc + [xs[0]];
      DedupAppendExtends(next, xs[1..]);
      assert next[..|acc|] == acc;
    }
  }

  /** The result holds exactly the items of both lists. */
  lemma {:induction false} DedupAppendMembers(acc: seq<string>, xs: seq<string>, x: string)
    ensures x in DedupAppend(acc, xs) <==> x in acc || x in xs
    decreases |xs|
  {
    if xs != [] {
      var next := if xs[0] in acc then acc else acc + [xs[0]];
      DedupAppendMembers(next, xs[1..], x);
      assert xs == [xs[0]] + xs[1..];
    }
  }

  /** A duplicate-free list stays duplicate-free: duplicates within `xs`
      are dropped too. */
  lemma {:induction false} DedupAppendNoDup(acc: seq<string>, xs: seq<string>)
    requires NoDup(acc)
    ensures NoDup(DedupAppend(acc, xs))
    decreases |xs|
  {
    if xs != [] {
      var next := if xs[0] in acc then acc else acc + [xs[0]];
      DedupAppendNoDup(next, xs[1..]);
    }
  }

  /** A Python list object, updated in place through every reference to it. */
  class SlugList {
    var items: seq<string>

    constructor ()
      ensures items == []
    {
      items := [];
    }

    /** `list.append(x)`. */
    method Append(x: string)
      modifies this
      ensures items == old(items) + [x]
    {
      items := items + [x];
    }
  }

  /** `deduplicate(list1, list2)`: appends to `list1` in place and returns
      that same list. */
  method Deduplicate(list1: SlugList, list2: seq<string>) returns (r: SlugList)
    modifies list1
    ensures r == list1
    ensures list1.items == DedupAppend(old(list1.items), list2)
    ensures NoDup(old(list1.items)) ==> NoDup(list1.items)
  {
    for i := 0 to |list2|
      invariant DedupAppend(list1.items, list2[i..]) == DedupAppend(old(list1.items), list2)
    {
      var item := list2[i];
      assert list2[i..][1..] == list2[i + 1..];
      if item !in list1.items {
        list1.Append(item);
      }
    }
    if NoDup(old(list1.items)) {
      DedupAppendNoDup(old(list1.items), list2);
    }
    r := list1;
  }
}
