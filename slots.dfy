// The clock's callback registry: an ordered sequence of optional slots.
// A tick is an opaque identifier; a removed tick leaves an empty slot (a
// tombstone) until the registry is compacted.
module Slots {

  datatype Option<T> = None | Some(value: T)

  type Slot = Option<int>

  /** Array.prototype.indexOf on the slot array: the first index holding `t`, or -1. */
  function IndexOf(s: seq<Slot>, t: int): (r: int)
    ensures -1 <= r < |s|
    ensures r == -1 <==> Some(t) !in s
    ensures 0 <= r ==> s[r] == Some(t) && forall k :: 0 <= k < r ==> s[k] != Some(t)
  {
    if s == [] then -1
    else if s[0] == Some(t) then 0
    else
      var k := IndexOf(s[1..], t);
      assert s == [s[0]] + s[1..];
      if k < 0 then -1 else k + 1
  }

  /** `has`: some slot holds `t`. */
  function Has(s: seq<Slot>, t: int): (r: bool)
    ensures r <==> Some(t) in s
  {
    IndexOf(s, t) >= 0
  }

  /** No tick occupies two slots. */
  predicate Distinct(s: seq<Slot>)
  {
    forall i, j :: 0 <= i < j < |s| && s[i].Some? ==> s[i] != s[j]
  }

  lemma DistinctSlice(s: seq<Slot>, lo: nat, hi: nat)
    requires lo <= hi <= |s| && Distinct(s)
    ensures Distinct(s[lo..hi])
  {
    forall i, j | 0 <= i < j < hi - lo && s[lo..hi][i].Some?
      ensures s[lo..hi][i] != s[lo..hi][j]
    {
      assert s[lo..hi][i] == s[lo + i] && s[lo..hi][j] == s[lo + j];
    }
  }

  lemma DistinctSnoc(s: seq<Slot>, x: Slot)
    requires Distinct(s) && (x.Some? ==> x !in s)
    ensures Distinct(s + [x])
  {
    var r := s + [x];
    forall i, j | 0 <= i < j < |r| && r[i].Some?
      ensures r[i] != r[j]
    {
      if j == |s| {
        assert r[i] == s[i];
      } else {
        assert r[i] == s[i] && r[j] == s[j];
      }
    }
  }

  /** `on`: append `t` unless some slot already holds it. */
  function Added(s: seq<Slot>, t: int): (r: seq<Slot>)
    ensures Has(r, t)
    ensures Has(s, t) ==> r == s
    ensures !Has(s, t) ==> |r| == |s| + 1 && r[|s|] == Some(t)
    ensures |s| <= |r| && forall k :: 0 <= k < |s| ==> r[k] == s[k]
    ensures forall u :: Has(r, u) <==> Has(s, u) || u == t
    ensures Distinct(s) ==> Distinct(r)
  {
    if Has(s, t) then s
    else
      assert Distinct(s) ==> Distinct(s + [Some(t)]) by {
        if Distinct(s) { DistinctSnoc(s, Some(t)); }
      }
      s + [Some(t)]
  }

  /** `off`: empty the first slot holding `t`, in place; no slot moves. */
  function Removed(s: seq<Slot>, t: int): (r: seq<Slot>)
    ensures |r| == |s|
    ensures !Has(s, t) ==> r == s
    ensures Has(s, t) ==> r[IndexOf(s, t)] == None &&
                          forall k :: 0 <= k < |s| && k != IndexOf(s, t) ==> r[k] == s[k]
    ensures Distinct(s) ==> Distinct(r) && !Has(r, t)
    ensures forall u :: u != t ==> (Has(r, u) <==> Has(s, u))
  {
    var pos := IndexOf(s, t);
    if pos < 0 then s
    else
      var r := s[pos := None];
      assert Distinct(s) ==> Some(t) !in r by {
        if Distinct(s) {
          forall k | 0 <= k < |r|
            ensures r[k] != Some(t)
          {
            if k < pos {
              assert r[k] == s[k];
            } else if k > pos {
              assert r[k] == s[k] && s[pos] != s[k];
            }
          }
        }
      }
      assert forall u :: u != t ==> (Some(u) in r <==> Some(u) in s) by {
        forall u | u != t
          ensures Some(u) in r <==> Some(u) in s
        {
          if Some(u) in s {
            var k :| 0 <= k < |s| && s[k] == Some(u);
            assert r[k] == Some(u);
          }
        }
      }
      r
  }

  /** `clear`: every slot emptied, none removed. */
  function Cleared(s: seq<Slot>): (r: seq<Slot>)
    ensures |r| == |s|
    ensures forall k :: 0 <= k < |r| ==> r[k] == None
    ensures forall t :: !Has(r, t)
    ensures Distinct(r)
  {
    seq(|s|, k => None)
  }

  /** The ticks held by the slots, in slot order. */
  function Live(s: seq<Slot>): (r: seq<int>)
    ensures |r| <= |s|
    ensures forall t :: t in r <==> Some(t) in s
  {
    if s == [] then []
    else
      assert s == [s[0]] + s[1..];
      (if s[0].Some? then [s[0].value] else []) + Live(s[1..])
  }

  lemma {:induction false} LiveConcat(a: seq<Slot>, b: seq<Slot>)
    ensures Live(a + b) == Live(a) + Live(b)
    decreases |a|
  {
    if a == [] {
      assert a + b == b;
    } else {
      assert (a + b)[0] == a[0] && (a + b)[1..] == a[1..] + b;
      LiveConcat(a[1..], b);
    }
  }

  /** `_shrink`: the non-empty slots, in their original order. */
  function Compact(s: seq<Slot>): (r: seq<Slot>)
    ensures forall k :: 0 <= k < |r| ==> r[k].Some?
    ensures Live(r) == Live(s)
    ensures forall t :: Has(r, t) <==> Has(s, t)
    decreases |s|
  {
    if s == [] then []
    else
      var init, last := s[..|s| - 1], s[|s| - 1];
      assert s == init + [last];
      var c := Compact(init);
      LiveConcat(init, [last]);
      if last.Some? then
        LiveConcat(c, [last]);
        c + [last]
      else
        c
  }

  lemma CompactSnoc(s: seq<Slot>, x: Slot)
    ensures Compact(s + [x]) == Compact(s) + (if x.Some? then [x] else [])
  {
    assert (s + [x])[..|s|] == s;
  }

  lemma {:induction false} CompactDistinct(s: seq<Slot>)
    requires Distinct(s)
    ensures Distinct(Compact(s))
    decreases |s|
  {
    if s != [] {
      var init, last := s[..|s| - 1], s[|s| - 1];
      assert s == init + [last];
      DistinctSlice(s, 0, |s| - 1);
      CompactDistinct(init);
      if last.Some? {
        assert last !in init by {
          forall k | 0 <= k < |init|
            ensures init[k] != last
          {
            assert s[k] == init[k];
          }
        }
        DistinctSnoc(Compact(init), last);
      }
    }
  }

  /** The slots after registering `xs` one by one on an empty registry. */
  function Registered(xs: seq<int>): (r: seq<Slot>)
    ensures forall k :: 0 <= k < |r| ==> r[k].Some?
    ensures Distinct(r)
    ensures forall t :: Has(r, t) <==> t in xs
    ensures |r| <= |xs|
    decreases |xs|
  {
    if xs == [] then []
    else
      assert xs == xs[..|xs| - 1] + [xs[|xs| - 1]];
      Added(Registered(xs[..|xs| - 1]), xs[|xs| - 1])
  }

  lemma RegisteredSnoc(xs: seq<int>, x: int)
    ensures Registered(xs + [x]) == Added(Registered(xs), x)
  {
    assert (xs + [x])[..|xs|] == xs;
  }
}
