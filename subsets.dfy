/**
 * powerset: the recursive subset generator the column encoder uses to
 * enumerate every group of bases observed in one column.
 */
module Subsets {
  import opened Substitutions

  /** Pairs every item with x in front of it, then the item itself, as the generator yields them. */
  function Spread<T(!new)>(x: T, items: seq<seq<T>>): (r: seq<seq<T>>)
    ensures |r| == 2 * |items|
    ensures forall t :: t in r <==> exists y :: y in items && (t == [x] + y || t == y)
  {
    if items == [] then []
    else
      var tail := Spread(x, items[1..]);
      assert forall y :: y in items <==> y == items[0] || y in items[1..];
      [[x] + items[0], items[0]] + tail
  }

  /** The lists powerset(s) yields, in order. A list of length 0 or 1 yields itself and then []. */
  function Powerset<T(!new)>(s: seq<T>): (r: seq<seq<T>>)
    ensures s in r && [] in r
    decreases |s|
  {
    if |s| <= 1 then [s, []]
    else
      assert s == [s[0]] + s[1..];
      Spread(s[0], Powerset(s[1..]))
  }

  /** t is an order-preserving sub-list of s. */
  predicate IsSublist<T(==)>(t: seq<T>, s: seq<T>)
    decreases |s|
  {
    if t == [] then true
    else if s == [] then false
    else (t[0] == s[0] && IsSublist(t[1..], s[1..])) || IsSublist(t, s[1..])
  }

  function Pow2(n: nat): (p: nat) {
    if n == 0 then 1 else 2 * Pow2(n - 1)
  }

  /** A non-empty list of n items yields 2^n lists. */
  lemma {:induction false} PowersetLength<T(!new)>(s: seq<T>)
    requires |s| >= 1
    ensures |Powerset(s)| == Pow2(|s|)
    decreases |s|
  {
    if |s| > 1 {
      PowersetLength(s[1..]);
    }
  }

  /** Exactly the order-preserving sub-lists are yielded, among them [] and s itself. */
  lemma {:induction false} PowersetSublists<T(!new)>(s: seq<T>, t: seq<T>)
    ensures t in Powerset(s) <==> IsSublist(t, s)
    decreases |s|
  {
    if |s| == 0 {
    } else if |s| == 1 {
      if t != [] && IsSublist(t, s) {
        assert s[1..] == [] && !IsSublist(t, s[1..]);
        assert t[0] == s[0] && IsSublist(t[1..], s[1..]);
        assert t == s;
      }
    } else {
      var x, rest := s[0], s[1..];
      if t in Powerset(s) {
        var y :| y in Powerset(rest) && (t == [x] + y || t == y);
        PowersetSublists(rest, y);
        if t == [x] + y {
          assert t[1..] == y;
        }
      }
      if IsSublist(t, s) {
        if t != [] && t[0] == x && IsSublist(t[1..], rest) {
          PowersetSublists(rest, t[1..]);
          assert t == [x] + t[1..];
        } else {
          PowersetSublists(rest, t);
        }
      }
    }
  }

  lemma {:induction false} SublistElems<T>(t: seq<T>, s: seq<T>)
    requires IsSublist(t, s)
    ensures Elems(t) <= Elems(s)
    decreases |s|
  {
    if t != [] {
      if t[0] == s[0] && IsSublist(t[1..], s[1..]) {
        SublistElems(t[1..], s[1..]);
        assert t == [t[0]] + t[1..];
        assert s == [s[0]] + s[1..];
        ConsFacts(t[0], t[1..]);
        ConsFacts(s[0], s[1..]);
      } else {
        SublistElems(t, s[1..]);
        assert s == [s[0]] + s[1..];
        ConsFacts(s[0], s[1..]);
      }
    }
  }

  lemma {:induction false} SpreadNoDup<T(!new)>(x: T, items: seq<seq<T>>)
    requires NoDup(items)
    requires forall y | y in items :: x !in y
    ensures NoDup(Spread(x, items))
  {
    if items != [] {
      var y, rest := items[0], items[1..];
      var tail := Spread(x, rest);
      assert NoDup(rest) by {
        forall i, j | 0 <= i < j < |rest| ensures rest[i] != rest[j] {
          assert rest[i] == items[i + 1] && rest[j] == items[j + 1];
        }
      }
      assert y !in rest by {
        forall j | 0 <= j < |rest| ensures rest[j] != y {
          assert rest[j] == items[j + 1];
        }
      }
      SpreadNoDup(x, rest);
      assert [x] + y != y by {
        assert x in [x] + y;
      }
      forall z | z in rest
        ensures [x] + y != [x] + z && [x] + y != z && y != [x] + z
      {
        assert x in [x] + y && x in [x] + z;
        assert ([x] + y)[1..] == y && ([x] + z)[1..] == z;
      }
      assert [x] + y !in tail;
      assert y !in tail;
      var r := Spread(x, items);
      assert r == [[x] + y, y] + tail;
      forall i, j | 0 <= i < j < |r| ensures r[i] != r[j] {
        if i >= 2 {
          assert r[i] == tail[i - 2] && r[j] == tail[j - 2];
        } else if j >= 2 {
          assert r[j] == tail[j - 2] && r[j] in tail;
        }
      }
    }
  }

  /** A list of distinct items yields distinct sub-lists. */
  lemma {:induction false} PowersetNoDup<T(!new)>(s: seq<T>)
    requires NoDup(s) && |s| >= 1
    ensures NoDup(Powerset(s))
    decreases |s|
  {
    if |s| > 1 {
      var x, rest := s[0], s[1..];
      assert s == [x] + rest;
      ConsFacts(x, rest);
      PowersetNoDup(rest);
      forall y | y in Powerset(rest)
        ensures x !in y
      {
        PowersetSublists(rest, y);
        SublistElems(y, rest);
      }
      SpreadNoDup(x, Powerset(rest));
    }
  }

  /** The elements of s that belong to m, in their order in s. */
  function Filter<T>(s: seq<T>, m: set<T>): (r: seq<T>)
    ensures IsSublist(r, s)
    ensures Elems(r) == Elems(s) * m
    ensures NoDup(s) ==> NoDup(r)
  {
    if s == [] then []
    else
      var rest := Filter(s[1..], m);
      assert s == [s[0]] + s[1..];
      ConsFacts(s[0], s[1..]);
      if s[0] in m then
        ConsFacts(s[0], rest);
        assert ([s[0]] + rest)[1..] == rest;
        [s[0]] + rest
      else rest
  }
}
