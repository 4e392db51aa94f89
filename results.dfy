/** How a group's `Results` dictionary is filled at the barrier: `Results[member.Name] =
    member.Result` for every member, in list order. */
module GroupResults {
  import opened Common
  import opened Records

  /** The `(Name, Result)` pair of each record, in list order. Every group member carries a
      name here. */
  function Entries(ms: seq<TaskRunner>): (r: seq<(string, Value)>)
    requires forall k :: 0 <= k < |ms| ==> ms[k].name.Some?
    reads ms
    ensures |r| == |ms|
    ensures forall k :: 0 <= k < |ms| ==> r[k] == (ms[k].name.value, ms[k].result)
  {
    if ms == [] then [] else [(ms[0].name.value, ms[0].result)] + Entries(ms[1..])
  }

  /** The names among the entries. */
  function Names(es: seq<(string, Value)>): set<string> {
    set k | 0 <= k < |es| :: es[k].0
  }

  /** The dictionary after the indexer assignments of `es`, in order, into `m`. */
  function Assemble(m: map<string, Value>, es: seq<(string, Value)>): map<string, Value>
    decreases |es|
  {
    if es == [] then m else Assemble(m[es[0].0 := es[0].1], es[1..])
  }

  /** The keys afterwards are the old keys plus every entry's name. */
  lemma {:induction false} AssembleKeys(m: map<string, Value>, es: seq<(string, Value)>)
    ensures Assemble(m, es).Keys == m.Keys + Names(es)
    decreases |es|
  {
    if es != [] {
      AssembleKeys(m[es[0].0 := es[0].1], es[1..]);
      assert Names(es) == {es[0].0} + Names(es[1..]) by {
        forall n | n in Names(es) ensures n in {es[0].0} + Names(es[1..]) {
          var k :| 0 <= k < |es| && es[k].0 == n;
          if k > 0 { assert es[1..][k - 1].0 == n; }
        }
        forall n | n in Names(es[1..]) ensures n in Names(es) {
          var k :| 0 <= k < |es[1..]| && es[1..][k].0 == n;
          assert es[k + 1].0 == n;
        }
      }
    }
  }

  /** An entry whose name no later entry repeats leaves its value under that name. */
  lemma {:induction false} AssembleLastWins(m: map<string, Value>, es: seq<(string, Value)>, k: nat)
    requires k < |es|
    requires forall j :: k < j < |es| ==> es[j].0 != es[k].0
    ensures es[k].0 in Assemble(m, es) && Assemble(m, es)[es[k].0] == es[k].1
    decreases |es|
  {
    var m' := m[es[0].0 := es[0].1];
    if k == 0 {
      AssembleKeepsOthers(m', es[1..], es[0].0);
    } else {
      AssembleLastWins(m', es[1..], k - 1);
    }
  }

  /** A name that no entry carries keeps its old value. */
  lemma {:induction false} AssembleKeepsOthers(m: map<string, Value>, es: seq<(string, Value)>, n: string)
    requires n in m
    requires forall j :: 0 <= j < |es| ==> es[j].0 != n
    ensures n in Assemble(m, es) && Assemble(m, es)[n] == m[n]
    decreases |es|
  {
    if es != [] {
      AssembleKeepsOthers(m[es[0].0 := es[0].1], es[1..], n);
    }
  }

  /** With distinct member names, assembling into an empty dictionary gives exactly one key per
      member, holding that member's result. */
  lemma AssembleDistinct(es: seq<(string, Value)>)
    requires forall j, k :: 0 <= j < k < |es| ==> es[j].0 != es[k].0
    ensures Assemble(map[], es).Keys == Names(es)
    ensures forall k :: 0 <= k < |es| ==> Assemble(map[], es)[es[k].0] == es[k].1
  {
    AssembleKeys(map[], es);
    forall k | 0 <= k < |es| ensures Assemble(map[], es)[es[k].0] == es[k].1 {
      AssembleLastWins(map[], es, k);
    }
  }
}
