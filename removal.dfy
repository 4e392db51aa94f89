/** The mark-then-remove pattern of the drain: a `bool[]` of marks sized when the scan starts,
    then a loop that calls `RemoveAt` on every marked index, from the highest down. `Kept` is
    what that loop leaves; `Survivors` names the indices it leaves, so that the lemmas below say
    exactly which entries go and in what order the others stay. */
module Removal {

  /** Index `i` is marked for removal. The marks are allocated before later entries can be
      appended, so an index at or past their length is never marked. */
  predicate Marked(marks: seq<bool>, i: int) {
    0 <= i < |marks| && marks[i]
  }

  /** The entries of `s` from index `i` on at unmarked indices, in their original order. */
  function KeptFrom<T>(s: seq<T>, marks: seq<bool>, i: nat): seq<T>
    requires i <= |s|
    decreases |s| - i
  {
    if i == |s| then [] else (if Marked(marks, i) then [] else [s[i]]) + KeptFrom(s, marks, i + 1)
  }

  /** The entries of `s` at unmarked indices, in their original order. */
  function Kept<T>(s: seq<T>, marks: seq<bool>): seq<T> {
    KeptFrom(s, marks, 0)
  }

  /** The unmarked indices from `i` up to `n`, in increasing order. */
  function SurvivorsFrom(marks: seq<bool>, n: nat, i: nat): seq<nat>
    requires i <= n
    decreases n - i
  {
    if i == n then [] else (if Marked(marks, i) then [] else [i]) + SurvivorsFrom(marks, n, i + 1)
  }

  /** The indices below `n` that are not marked, in increasing order. */
  function Survivors(marks: seq<bool>, n: nat): seq<nat> {
    SurvivorsFrom(marks, n, 0)
  }

  /** Every survivor from `i` on is an unmarked index in `[i, n)`. */
  lemma {:induction false} SurvivorsFromAreUnmarked(marks: seq<bool>, n: nat, i: nat, k: nat)
    requires i <= n && k < |SurvivorsFrom(marks, n, i)|
    ensures i <= SurvivorsFrom(marks, n, i)[k] < n && !Marked(marks, SurvivorsFrom(marks, n, i)[k])
    decreases n - i
  {
    var rest := SurvivorsFrom(marks, n, i + 1);
    if Marked(marks, i) {
      assert SurvivorsFrom(marks, n, i) == rest;
      SurvivorsFromAreUnmarked(marks, n, i + 1, k);
    } else if k > 0 {
      assert SurvivorsFrom(marks, n, i) == [i] + rest;
      SurvivorsFromAreUnmarked(marks, n, i + 1, k - 1);
    }
  }

  /** Every survivor is an unmarked index below `n`. */
  lemma SurvivorsAreUnmarked(marks: seq<bool>, n: nat)
    ensures forall k :: 0 <= k < |Survivors(marks, n)| ==>
              Survivors(marks, n)[k] < n && !Marked(marks, Survivors(marks, n)[k])
  {
    forall k | 0 <= k < |Survivors(marks, n)|
      ensures Survivors(marks, n)[k] < n && !Marked(marks, Survivors(marks, n)[k])
    {
      SurvivorsFromAreUnmarked(marks, n, 0, k);
    }
  }

  /** The survivors from `i` on are listed in increasing order. */
  lemma {:induction false} SurvivorsFromIncrease(marks: seq<bool>, n: nat, i: nat, k: nat, l: nat)
    requires i <= n && k < l < |SurvivorsFrom(marks, n, i)|
    ensures SurvivorsFrom(marks, n, i)[k] < SurvivorsFrom(marks, n, i)[l]
    decreases n - i
  {
    var rest := SurvivorsFrom(marks, n, i + 1);
    if Marked(marks, i) {
      assert SurvivorsFrom(marks, n, i) == rest;
      SurvivorsFromIncrease(marks, n, i + 1, k, l);
    } else {
      assert SurvivorsFrom(marks, n, i) == [i] + rest;
      if k == 0 {
        SurvivorsFromAreUnmarked(marks, n, i + 1, l - 1);
      } else {
        SurvivorsFromIncrease(marks, n, i + 1, k - 1, l - 1);
      }
    }
  }

  /** The survivors are listed in increasing order. */
  lemma SurvivorsIncrease(marks: seq<bool>, n: nat)
    ensures forall k, l :: 0 <= k < l < |Survivors(marks, n)| ==>
              Survivors(marks, n)[k] < Survivors(marks, n)[l]
  {
    forall k, l | 0 <= k < l < |Survivors(marks, n)|
      ensures Survivors(marks, n)[k] < Survivors(marks, n)[l]
    {
      SurvivorsFromIncrease(marks, n, 0, k, l);
    }
  }

  /** Every unmarked index in `[i, n)` is a survivor from `i` on. */
  lemma {:induction false} SurvivorsFromComplete(marks: seq<bool>, n: nat, i: nat, j: nat)
    requires i <= j < n && !Marked(marks, j)
    ensures j in SurvivorsFrom(marks, n, i)
    decreases n - i
  {
    var head: seq<nat> := if Marked(marks, i) then [] else [i];
    assert SurvivorsFrom(marks, n, i) == head + SurvivorsFrom(marks, n, i + 1);
    if j > i {
      SurvivorsFromComplete(marks, n, i + 1, j);
    }
  }

  /** Every unmarked index below `n` is a survivor. */
  lemma SurvivorsComplete(marks: seq<bool>, n: nat, i: nat)
    requires i < n && !Marked(marks, i)
    ensures i in Survivors(marks, n)
  {
    SurvivorsFromComplete(marks, n, 0, i);
  }

  /** The removal keeps one entry per survivor. */
  lemma {:induction false} KeptFromLength<T>(s: seq<T>, marks: seq<bool>, i: nat)
    requires i <= |s|
    ensures |KeptFrom(s, marks, i)| == |SurvivorsFrom(marks, |s|, i)|
    decreases |s| - i
  {
    if i < |s| {
      KeptFromLength(s, marks, i + 1);
    }
  }

  /** The k-th entry kept from `i` on is the entry at the k-th survivor from `i` on. */
  lemma {:induction false} KeptFromAt<T>(s: seq<T>, marks: seq<bool>, i: nat, k: nat)
    requires i <= |s| && k < |KeptFrom(s, marks, i)|
    ensures k < |SurvivorsFrom(marks, |s|, i)|
    ensures SurvivorsFrom(marks, |s|, i)[k] < |s|
    ensures KeptFrom(s, marks, i)[k] == s[SurvivorsFrom(marks, |s|, i)[k]]
    decreases |s| - i
  {
    var kept := KeptFrom(s, marks, i + 1);
    var rest := SurvivorsFrom(marks, |s|, i + 1);
    KeptFromLength(s, marks, i);
    if Marked(marks, i) {
      assert KeptFrom(s, marks, i) == kept;
      assert SurvivorsFrom(marks, |s|, i) == rest;
      KeptFromAt(s, marks, i + 1, k);
    } else if k > 0 {
      assert KeptFrom(s, marks, i) == [s[i]] + kept;
      assert SurvivorsFrom(marks, |s|, i) == [i] + rest;
      KeptFromAt(s, marks, i + 1, k - 1);
    }
  }

  /** The removal deletes exactly the marked indices and keeps the rest in order: the k-th
      entry left is the entry at the k-th unmarked index. */
  lemma KeptSelectsSurvivors<T>(s: seq<T>, marks: seq<bool>)
    ensures |Kept(s, marks)| == |Survivors(marks, |s|)|
    ensures forall k :: 0 <= k < |Kept(s, marks)| ==>
              Survivors(marks, |s|)[k] < |s| && Kept(s, marks)[k] == s[Survivors(marks, |s|)[k]]
  {
    KeptFromLength(s, marks, 0);
    forall k | 0 <= k < |Kept(s, marks)|
      ensures Survivors(marks, |s|)[k] < |s| && Kept(s, marks)[k] == s[Survivors(marks, |s|)[k]]
    {
      KeptFromAt(s, marks, 0, k);
    }
  }

  /** Past the marks nothing is removed. */
  lemma {:induction false} KeptFromUnmarked<T>(s: seq<T>, marks: seq<bool>, i: nat)
    requires |marks| <= i <= |s|
    ensures KeptFrom(s, marks, i) == s[i..]
    decreases |s| - i
  {
    if i < |s| {
      KeptFromUnmarked(s, marks, i + 1);
      assert s[i..] == [s[i]] + s[i + 1..];
    }
  }

  /** The entries up to `j` are filtered on their own. */
  lemma {:induction false} KeptFromPrefix<T>(s: seq<T>, marks: seq<bool>, i: nat, j: nat)
    requires i <= j <= |s|
    ensures KeptFrom(s, marks, i) == KeptFrom(s[..j], marks, i) + KeptFrom(s, marks, j)
    decreases j - i
  {
    if i < j {
      KeptFromPrefix(s, marks, i + 1, j);
      assert s[..j][i] == s[i];
    }
  }

  /** Entries appended after the marks were allocated are all kept, behind the survivors of the
      marked prefix. */
  lemma KeptKeepsAppended<T>(s: seq<T>, marks: seq<bool>)
    requires |marks| <= |s|
    ensures Kept(s, marks) == Kept(s[..|marks|], marks) + s[|marks|..]
  {
    KeptFromPrefix(s, marks, 0, |marks|);
    KeptFromUnmarked(s, marks, |marks|);
  }

  /** Deleting the middle entry of `p + [x] + rest`. */
  lemma DropMiddle<T>(p: seq<T>, x: T, rest: seq<T>)
    ensures (p + ([x] + rest))[..|p|] + (p + ([x] + rest))[|p| + 1..] == p + rest
  {
    var c := p + ([x] + rest);
    assert c[..|p|] == p;
    assert c[|p| + 1..] == rest;
  }

  /** The reverse loop's step: with the entries from index `i + 1` on already filtered,
      deleting index `i` when it is marked leaves the entries from index `i` on filtered. */
  lemma RemoveStep<T>(s: seq<T>, marks: seq<bool>, i: nat, cur: seq<T>)
    requires i < |marks| <= |s|
    requires cur == s[..i + 1] + KeptFrom(s, marks, i + 1)
    ensures (if marks[i] then cur[..i] + cur[i + 1..] else cur) == s[..i] + KeptFrom(s, marks, i)
  {
    var rest := KeptFrom(s, marks, i + 1);
    assert s[..i + 1] == s[..i] + [s[i]];
    assert cur == s[..i] + ([s[i]] + rest);
    if marks[i] {
      DropMiddle(s[..i], s[i], rest);
    }
  }

  /** What the removal keeps was in the list, and a list without repeats stays without. */
  lemma KeptSubsequence<T>(s: seq<T>, marks: seq<bool>)
    ensures forall x :: x in Kept(s, marks) ==> x in s
    ensures (forall i, j :: 0 <= i < j < |s| ==> s[i] != s[j]) ==>
              forall i, j :: 0 <= i < j < |Kept(s, marks)| ==> Kept(s, marks)[i] != Kept(s, marks)[j]
  {
    KeptSelectsSurvivors(s, marks);
    SurvivorsIncrease(marks, |s|);
    forall x | x in Kept(s, marks) ensures x in s {
      var k :| 0 <= k < |Kept(s, marks)| && Kept(s, marks)[k] == x;
      assert s[Survivors(marks, |s|)[k]] == x;
    }
  }
}
