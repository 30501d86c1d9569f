// The invocation loop of one clock cycle as a function of the slots: each
// non-empty slot below the length captured at loop start is invoked in index
// order, and an invoked tick may change the registry while the loop runs.
module Cycle {
  import opened Slots

  /** What an invoked tick does to the registry: it stands for the
    * callback's own `on`, `off` and `clear` calls. */
  datatype Action = On(tick: int) | Off(tick: int) | Clear

  /** `r` keeps every slot of `s` or empties it, and may add slots after them. */
  predicate Retires(s: seq<Slot>, r: seq<Slot>)
  {
    |s| <= |r| && forall k :: 0 <= k < |s| ==> r[k] == s[k] || r[k] == None
  }

  function Perform(s: seq<Slot>, a: Action): (r: seq<Slot>)
    ensures Retires(s, r)
    ensures Distinct(s) ==> Distinct(r)
  {
    match a
    case On(t) => Added(s, t)
    case Off(t) => Removed(s, t)
    case Clear => Cleared(s)
  }

  function PerformAll(s: seq<Slot>, actions: seq<Action>): (r: seq<Slot>)
    ensures Retires(s, r)
    ensures Distinct(s) ==> Distinct(r)
    decreases |actions|
  {
    if actions == [] then s
    else PerformAll(Perform(s, actions[0]), actions[1..])
  }

  /** The actions tick `t` performs when invoked; none if it has no script. */
  function ScriptOf(script: map<int, seq<Action>>, t: int): seq<Action>
  {
    if t in script then script[t] else []
  }

  /** The outcome of the loop: the slots afterwards, the ticks invoked in
    * order, and whether an empty slot was reached. */
  datatype Pass = Pass(slots: seq<Slot>, invoked: seq<int>, garbage: bool)

  /** The loop from index `i` to the captured length `iz`. */
  function Walk(s: seq<Slot>, i: nat, iz: nat, script: map<int, seq<Action>>): (p: Pass)
    requires i <= iz <= |s|
    ensures Retires(s, p.slots)
    ensures |p.invoked| <= iz - i
    decreases iz - i
  {
    if i == iz then Pass(s, [], false)
    else
      match s[i]
      case Some(t) =>
        var rest := Walk(PerformAll(s, ScriptOf(script, t)), i + 1, iz, script);
        Pass(rest.slots, [t] + rest.invoked, rest.garbage)
      case None =>
        var rest := Walk(s, i + 1, iz, script);
        Pass(rest.slots, rest.invoked, true)
  }

  /** The loop keeps live ticks distinct, whatever the ticks do. */
  lemma {:induction false} WalkDistinct(s: seq<Slot>, i: nat, iz: nat, script: map<int, seq<Action>>)
    requires i <= iz <= |s| && Distinct(s)
    ensures Distinct(Walk(s, i, iz, script).slots)
    decreases iz - i
  {
    if i < iz {
      match s[i]
      case Some(t) =>
        WalkDistinct(PerformAll(s, ScriptOf(script, t)), i + 1, iz, script);
      case None =>
        WalkDistinct(s, i + 1, iz, script);
    }
  }

  /** One iteration of the loop, as the imperative loop takes it. */
  lemma WalkStep(s: seq<Slot>, i: nat, iz: nat, script: map<int, seq<Action>>)
    requires i < iz <= |s|
    ensures s[i].Some? ==>
              var s' := PerformAll(s, ScriptOf(script, s[i].value));
              var rest := Walk(s', i + 1, iz, script);
              iz <= |s'| && Walk(s, i, iz, script) == Pass(rest.slots, [s[i].value] + rest.invoked, rest.garbage)
    ensures s[i].None? ==>
              var rest := Walk(s, i + 1, iz, script);
              Walk(s, i, iz, script) == Pass(rest.slots, rest.invoked, true)
  {
  }

  /** The loop's outcome when it resumes at index `i`, having invoked
    * `invoked` and noted `garbage` so far. */
  function Resume(s: seq<Slot>, i: nat, iz: nat, script: map<int, seq<Action>>, invoked: seq<int>, garbage: bool): Pass
    requires i <= iz <= |s|
  {
    var p := Walk(s, i, iz, script);
    Pass(p.slots, invoked + p.invoked, garbage || p.garbage)
  }

  /** `a` is `b` with some elements left out. */
  predicate Subseq(a: seq<int>, b: seq<int>)
    decreases |b|
  {
    if a == [] then true
    else if b == [] then false
    else (a[0] == b[0] && Subseq(a[1..], b[1..])) || Subseq(a, b[1..])
  }

  /** No element occurs twice. */
  predicate NoDup(a: seq<int>)
  {
    forall i, j :: 0 <= i < j < |a| ==> a[i] != a[j]
  }

  lemma {:induction false} SubseqTrans(a: seq<int>, b: seq<int>, c: seq<int>)
    requires Subseq(a, b) && Subseq(b, c)
    ensures Subseq(a, c)
    decreases |c|
  {
    if a != [] {
      if b[0] == c[0] && Subseq(b[1..], c[1..]) {
        if a[0] == b[0] && Subseq(a[1..], b[1..]) {
          SubseqTrans(a[1..], b[1..], c[1..]);
        } else {
          SubseqTrans(a, b[1..], c[1..]);
        }
      } else {
        SubseqTrans(a, b, c[1..]);
      }
    }
  }

  lemma {:induction false} SubseqMembers(a: seq<int>, b: seq<int>)
    requires Subseq(a, b)
    ensures forall x :: x in a ==> x in b
    decreases |b|
  {
    if a != [] {
      if a[0] == b[0] && Subseq(a[1..], b[1..]) {
        SubseqMembers(a[1..], b[1..]);
        assert a == [a[0]] + a[1..];
        assert b == [b[0]] + b[1..];
      } else {
        SubseqMembers(a, b[1..]);
        assert b == [b[0]] + b[1..];
      }
    }
  }

  lemma NoDupCons(x: int, a: seq<int>)
    requires x !in a && NoDup(a)
    ensures NoDup([x] + a)
  {
    var r := [x] + a;
    forall i, j | 0 <= i < j < |r|
      ensures r[i] != r[j]
    {
      assert r[j] == a[j - 1];
      if i > 0 {
        assert r[i] == a[i - 1];
      }
    }
  }

  lemma NoDupTail(a: seq<int>)
    requires a != [] && NoDup(a)
    ensures NoDup(a[1..]) && a[0] !in a[1..]
  {
    assert forall i, j :: 0 <= i < j < |a[1..]| ==> a[1..][i] == a[i + 1] && a[1..][j] == a[j + 1];
    forall k | 0 <= k < |a[1..]|
      ensures a[1..][k] != a[0]
    {
      assert a[1..][k] == a[k + 1];
    }
  }

  lemma {:induction false} SubseqNoDup(a: seq<int>, b: seq<int>)
    requires Subseq(a, b) && NoDup(b)
    ensures NoDup(a)
    decreases |b|
  {
    if a != [] {
      NoDupTail(b);
      if a[0] == b[0] && Subseq(a[1..], b[1..]) {
        SubseqNoDup(a[1..], b[1..]);
        SubseqMembers(a[1..], b[1..]);
        NoDupCons(a[0], a[1..]);
        assert a == [a[0]] + a[1..];
      } else {
        SubseqNoDup(a, b[1..]);
      }
    }
  }

  /** Emptying slots in place leaves a subsequence of the live ticks. */
  lemma {:induction false} LiveRetired(a: seq<Slot>, b: seq<Slot>)
    requires |a| == |b| && forall k :: 0 <= k < |a| ==> b[k] == a[k] || b[k] == None
    ensures Subseq(Live(b), Live(a))
    decreases |a|
  {
    if a != [] {
      LiveRetired(a[1..], b[1..]);
      var la, lb := Live(a[1..]), Live(b[1..]);
      if b[0].Some? {
        assert Live(b) == [b[0].value] + lb && Live(a) == [b[0].value] + la;
        assert ([b[0].value] + lb)[1..] == lb;
      } else if a[0].Some? {
        assert Live(b) == lb && Live(a) == [a[0].value] + la;
        SubseqDrop(lb, la, a[0].value);
      } else {
        assert Live(b) == lb && Live(a) == la;
      }
    }
  }

  lemma SubseqDrop(a: seq<int>, b: seq<int>, x: int)
    requires Subseq(a, b)
    ensures Subseq(a, [x] + b)
  {
    assert ([x] + b)[1..] == b;
  }

  lemma {:induction false} LiveNoDup(s: seq<Slot>)
    requires Distinct(s)
    ensures NoDup(Live(s))
    decreases |s|
  {
    if s != [] {
      DistinctSlice(s, 1, |s|);
      LiveNoDup(s[1..]);
      if s[0].Some? {
        assert s[0] !in s[1..] by {
          forall k | 0 <= k < |s[1..]|
            ensures s[1..][k] != s[0]
          {
            assert s[1..][k] == s[k + 1];
          }
        }
        NoDupCons(s[0].value, Live(s[1..]));
      }
    }
  }

  /** Every tick the loop invokes was live, below the captured length, when
    * the loop began, and they are invoked in slot order, each slot at most
    * once: a tick appended during the loop is not invoked by it. */
  lemma {:induction false} WalkInvokesLive(s: seq<Slot>, i: nat, iz: nat, script: map<int, seq<Action>>)
    requires i <= iz <= |s|
    ensures Subseq(Walk(s, i, iz, script).invoked, Live(s[i..iz]))
    decreases iz - i
  {
    if i < iz {
      assert s[i..iz] == [s[i]] + s[i + 1..iz];
      match s[i]
      case Some(t) =>
        var s' := PerformAll(s, ScriptOf(script, t));
        WalkInvokesLive(s', i + 1, iz, script);
        LiveRetired(s[i + 1..iz], s'[i + 1..iz]);
        var rest := Walk(s', i + 1, iz, script).invoked;
        SubseqTrans(rest, Live(s'[i + 1..iz]), Live(s[i + 1..iz]));
        assert ([t] + rest)[1..] == rest;
        assert ([t] + Live(s[i + 1..iz]))[1..] == Live(s[i + 1..iz]);
      case None =>
        assert Live(s[i..iz]) == Live(s[i + 1..iz]);
        WalkInvokesLive(s, i + 1, iz, script);
    }
  }

  /** With live ticks distinct, no tick is invoked twice in one cycle, and
    * only ticks live below the captured length at loop start are invoked. */
  lemma WalkInvokesOnce(s: seq<Slot>, i: nat, iz: nat, script: map<int, seq<Action>>)
    requires i <= iz <= |s| && Distinct(s)
    ensures var p := Walk(s, i, iz, script);
            NoDup(p.invoked) && forall t :: t in p.invoked ==> Some(t) in s[i..iz]
  {
    var p := Walk(s, i, iz, script);
    WalkInvokesLive(s, i, iz, script);
    DistinctSlice(s, i, iz);
    LiveNoDup(s[i..iz]);
    SubseqNoDup(p.invoked, Live(s[i..iz]));
    SubseqMembers(p.invoked, Live(s[i..iz]));
  }

  /** A loop that reports an empty slot leaves one of the visited slots empty. */
  lemma {:induction false} WalkGarbage(s: seq<Slot>, i: nat, iz: nat, script: map<int, seq<Action>>)
    requires i <= iz <= |s|
    ensures var p := Walk(s, i, iz, script);
            p.garbage ==> exists k :: i <= k < iz && p.slots[k] == None
    decreases iz - i
  {
    if i < iz {
      match s[i]
      case Some(t) =>
        WalkGarbage(PerformAll(s, ScriptOf(script, t)), i + 1, iz, script);
      case None =>
        assert Walk(s, i, iz, script).slots[i] == None;
    }
  }

  /** When no tick touches the registry, the loop invokes exactly the live
    * ticks, changes no slot, and reports an empty slot exactly when one lies
    * below the captured length. */
  lemma {:induction false} WalkUntouched(s: seq<Slot>, i: nat, iz: nat, script: map<int, seq<Action>>)
    requires i <= iz <= |s|
    requires forall t :: t in script ==> script[t] == []
    ensures Walk(s, i, iz, script) == Pass(s, Live(s[i..iz]), None in s[i..iz])
    decreases iz - i
  {
    if i < iz {
      var rest := s[i + 1..iz];
      assert s[i..iz] == [s[i]] + rest;
      assert None in s[i..iz] <==> s[i] == None || None in rest;
      WalkUntouched(s, i + 1, iz, script);
      if s[i].Some? {
        var t := s[i].value;
        assert ScriptOf(script, t) == [];
        assert PerformAll(s, []) == s;
        assert Live(s[i..iz]) == [t] + Live(rest);
      } else {
        assert Live(s[i..iz]) == Live(rest);
      }
    }
  }

  /** One step of a self-removing tick: only its own slot may change. */
  lemma SelfRemovalStep(s: seq<Slot>, i: nat, script: map<int, seq<Action>>)
    requires i < |s| && Distinct(s) && s[i].Some?
    requires forall t :: t in script ==> script[t] == [] || script[t] == [Off(t)]
    ensures var r := PerformAll(s, ScriptOf(script, s[i].value));
            |r| == |s| && forall k :: 0 <= k < |s| && k != i ==> r[k] == s[k]
  {
    var t := s[i].value;
    if ScriptOf(script, t) == [Off(t)] {
      assert [Off(t)][1..] == [];
      assert PerformAll(s, [Off(t)]) == PerformAll(Perform(s, Off(t)), []);
      assert IndexOf(s, t) == i by {
        assert s[i] == Some(t);
        assert forall k :: 0 <= k < i ==> s[k] != Some(t);
      }
    }
  }

  /** Ticks that remove only themselves do not, by themselves, cause a
    * compaction: with every slot below the captured length live and distinct,
    * the loop invokes them all and reaches no empty slot. */
  lemma {:induction false} WalkSelfRemoval(s: seq<Slot>, i: nat, iz: nat, script: map<int, seq<Action>>)
    requires i <= iz <= |s| && Distinct(s)
    requires forall k :: i <= k < iz ==> s[k].Some?
    requires forall t :: t in script ==> script[t] == [] || script[t] == [Off(t)]
    ensures var p := Walk(s, i, iz, script);
            !p.garbage && p.invoked == Live(s[i..iz])
    decreases iz - i
  {
    if i < iz {
      assert s[i..iz] == [s[i]] + s[i + 1..iz];
      assert Live(s[i..iz]) == [s[i].value] + Live(s[i + 1..iz]);
      var s' := PerformAll(s, ScriptOf(script, s[i].value));
      WalkStep(s, i, iz, script);
      SelfRemovalStep(s, i, script);
      assert s'[i + 1..iz] == s[i + 1..iz];
      WalkSelfRemoval(s', i + 1, iz, script);
    }
  }

  lemma {:induction false} LiveAllEmpty(s: seq<Slot>)
    requires forall k :: 0 <= k < |s| ==> s[k] == None
    ensures Live(s) == []
    decreases |s|
  {
    if s != [] {
      LiveAllEmpty(s[1..]);
    }
  }

  /** A registry of tombstones only still runs the loop: nothing is invoked,
    * the empty slots are reported, and compaction leaves no slot. */
  lemma {:induction false} WalkAllEmpty(s: seq<Slot>, i: nat, iz: nat, script: map<int, seq<Action>>)
    requires i < iz <= |s|
    requires forall k :: i <= k < iz ==> s[k] == None
    ensures Walk(s, i, iz, script) == Pass(s, [], true)
    ensures iz == |s| && i == 0 ==> Compact(Walk(s, i, iz, script).slots) == []
    decreases iz - i
  {
    if i + 1 < iz {
      WalkAllEmpty(s, i + 1, iz, script);
    }
    if iz == |s| && i == 0 {
      LiveAllEmpty(s);
      assert Live(Compact(s)) == [];
    }
  }
}
