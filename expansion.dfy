/**
 * Expansion of an encoded string into the unambiguous strings it stands for
 * (expand_encoded_candidate), and the prefix validity test built on it
 * (test_encoded_candidate).
 */
module EncodedCandidates {
  import opened Substitutions

  /** Every character of code is one of the 15 symbols. */
  predicate IsCode(code: string) {
    forall i | 0 <= i < |code| :: code[i] in Reverse
  }

  /** Every character of x is a plain base. */
  predicate IsKmer(x: string) {
    forall i | 0 <= i < |x| :: x[i] in Bases
  }

  /**
   * The Cartesian product of the member bases of code's symbols, position by
   * position, as a set: the strings code stands for.
   */
  function Expansion(code: string): (es: set<string>)
    requires IsCode(code)
    decreases |code|
  {
    if code == [] then {[]}
    else
      var last := code[|code| - 1];
      set e, b | e in Expansion(code[..|code| - 1]) && b in Reverse[last] :: e + [b]
  }

  /** e is in the expansion of code exactly when it has code's length and each base belongs to the symbol above it. */
  lemma InExpansion(code: string, e: string)
    requires IsCode(code)
    ensures e in Expansion(code) <==>
              |e| == |code| && forall i | 0 <= i < |e| :: e[i] in Reverse[code[i]]
  {
    if e in Expansion(code) {
      ExpansionSound(code, e);
    }
    if |e| == |code| && forall i | 0 <= i < |e| :: e[i] in Reverse[code[i]] {
      ExpansionComplete(code, e);
    }
  }

  lemma {:induction false} ExpansionSound(code: string, e: string)
    requires IsCode(code) && e in Expansion(code)
    ensures |e| == |code| && forall i | 0 <= i < |e| :: e[i] in Reverse[code[i]]
    decreases |code|
  {
    if code != [] {
      var n := |code| - 1;
      var init := code[..n];
      var e', b :| e' in Expansion(init) && b in Reverse[code[n]] && e == e' + [b];
      ExpansionSound(init, e');
      forall i | 0 <= i < |e|
        ensures e[i] in Reverse[code[i]]
      {
        if i < n {
          assert e[i] == e'[i] && code[i] == init[i];
        }
      }
    }
  }

  lemma {:induction false} ExpansionComplete(code: string, e: string)
    requires IsCode(code) && |e| == |code| && forall i | 0 <= i < |e| :: e[i] in Reverse[code[i]]
    ensures e in Expansion(code)
    decreases |code|
  {
    if code != [] {
      var n := |code| - 1;
      var init := code[..n];
      ExpansionComplete(init, e[..n]);
      assert e == e[..n] + [e[n]];
    }
  }

  /** A plain kmer expands to itself alone. */
  lemma LiteralExpansion(x: string)
    requires IsKmer(x)
    ensures IsCode(x) && Expansion(x) == {x}
  {
    forall i | 0 <= i < |x| ensures x[i] in Reverse && Reverse[x[i]] == [x[i]] {
      PlainBase(x[i]);
    }
    forall e
      ensures e in Expansion(x) <==> e == x
    {
      InExpansion(x, e);
    }
  }

  /** A code is in nothing but its own positions' members; its expansion is never empty. */
  lemma ExpansionNonEmpty(code: string)
    requires IsCode(code)
    ensures Expansion(code) != {}
  {
    var e := seq(|code|, i requires 0 <= i < |code| => Reverse[code[i]][0]);
    InExpansion(code, e);
  }

  /** 'WW' expands to AA, AT, TA and TT (the example in expand_encoded_candidate's comment). */
  lemma ExpansionOfWW()
    ensures Expansion("WW") == {"AA", "AT", "TA", "TT"}
  {
    forall e
      ensures e in Expansion("WW") <==> e in {"AA", "AT", "TA", "TT"}
    {
      InExpansion("WW", e);
      if |e| == 2 && e[0] in "AT" && e[1] in "AT" {
        assert e == [e[0], e[1]];
      }
    }
  }

  /** The strings of xs, each followed by each string of ys: the list comprehension of one product step. */
  function Product(xs: seq<string>, ys: seq<string>): (r: seq<string>)
    ensures Elems(r) == set a, b | a in xs && b in ys :: a + b
  {
    if xs == [] then []
    else
      var row := seq(|ys|, j requires 0 <= j < |ys| => xs[0] + ys[j]);
      var rest := Product(xs[1..], ys);
      assert Elems(row) == set b | b in ys :: xs[0] + b by {
        forall b | b in ys ensures xs[0] + b in row {
          var j :| 0 <= j < |ys| && ys[j] == b;
          assert row[j] == xs[0] + b;
        }
      }
      assert forall a :: a in xs <==> a == xs[0] || a in xs[1..];
      assert Elems(row + rest) == Elems(row) + Elems(rest);
      assert (set a, b | a in xs && b in ys :: a + b)
          == (set b | b in ys :: xs[0] + b) + (set a, b | a in xs[1..] && b in ys :: a + b) by {
        var all := set a, b | a in xs && b in ys :: a + b;
        var split := (set b | b in ys :: xs[0] + b) + (set a, b | a in xs[1..] && b in ys :: a + b);
        forall s | s in all
          ensures s in split
        {
          var a, b :| a in xs && b in ys && s == a + b;
          if a != xs[0] {
            assert a in xs[1..];
          }
        }
      }
      row + rest
  }

  /** The one-character strings of a symbol's member list. */
  function Singletons(bases: string): (ys: seq<string>) {
    seq(|bases|, j requires 0 <= j < |bases| => [bases[j]])
  }

  /** The singletons list holds one one-character string per listed base, and nothing else. */
  lemma SingletonsMembers(bases: string, y: string)
    ensures |Singletons(bases)| == |bases|
    ensures y in Singletons(bases) <==> |y| == 1 && y[0] in bases
  {
    if |y| == 1 && y[0] in bases {
      var j :| 0 <= j < |bases| && bases[j] == y[0];
      assert Singletons(bases)[j] == y;
    }
  }

  /** One product step extends the expansion of a prefix by one more symbol. */
  lemma ExpansionStep(code: string, i: nat, acc: seq<string>)
    requires IsCode(code) && 1 <= i < |code|
    requires Elems(acc) == Expansion(code[..i])
    ensures Elems(Product(acc, Singletons(Reverse[code[i]]))) == Expansion(code[..i + 1])
  {
    var prefix := code[..i + 1];
    assert prefix[..i] == code[..i];
    var ys := Singletons(Reverse[code[i]]);
    assert forall y :: y in ys <==> exists b :: b in Reverse[code[i]] && y == [b] by {
      forall y | y in ys ensures exists b :: b in Reverse[code[i]] && y == [b] {
        var j :| 0 <= j < |ys| && ys[j] == y;
        assert Reverse[code[i]][j] in Reverse[code[i]];
      }
      forall b | b in Reverse[code[i]] ensures [b] in ys {
        var j :| 0 <= j < |Reverse[code[i]]| && Reverse[code[i]][j] == b;
        assert ys[j] == [b];
      }
    }
  }

  /**
   * expand_encoded_candidate: pops the member lists off one by one, forming the
   * product step by step. A single-symbol code yields nothing; the source fails
   * on an empty one.
   */
  method ExpandEncodedCandidate(code: string) returns (r: set<string>)
    requires |code| >= 1 && IsCode(code)
    ensures |code| == 1 ==> r == {}
    ensures |code| >= 2 ==> r == Expansion(code)
  {
    var n := |code|;
    var subs: seq<seq<string>> := [];
    for j := 0 to n
      invariant |subs| == j
      invariant forall t | 0 <= t < j :: subs[t] == Singletons(Reverse[code[t]])
    {
      subs := subs + [Singletons(Reverse[code[j]])];
    }
    assert Elems(subs[0]) == Expansion(code[..1]) by {
      InExpansion1(code);
    }
    var expanded: seq<string> := [];
    var i := 1;
    assert subs[1..] == Remaining(code, 1);
    while true
      invariant 1 <= i <= n && |subs| == n - i + 1
      invariant subs[1..] == Remaining(code, i)
      invariant i < n ==> Elems(subs[0]) == Expansion(code[..i]) && expanded == []
      invariant i == n && n == 1 ==> expanded == []
      invariant i == n && n >= 2 ==> Elems(expanded) == Expansion(code)
      decreases |subs|
    {
      var sub := subs[0];
      subs := subs[1..];
      if |subs| == 0 {
        break;
      }
      RemainingTail(code, i);
      var newSub := Product(sub, subs[0]);
      ExpansionStep(code, i, sub);
      i := i + 1;
      if i == n {
        assert code[..i] == code;
        expanded := newSub;
      } else {
        subs := subs[0 := newSub];
      }
    }
    r := Elems(expanded);
  }

  /** The member lists still waiting behind the head of subs once i symbols are folded in. */
  ghost function Remaining(code: string, i: nat): (rest: seq<seq<string>>)
    requires IsCode(code) && i <= |code|
  {
    seq(|code| - i, t requires 0 <= t < |code| - i => Singletons(Reverse[code[i + t]]))
  }

  lemma RemainingTail(code: string, i: nat)
    requires IsCode(code) && i < |code|
    ensures Remaining(code, i) != [] && Remaining(code, i)[0] == Singletons(Reverse[code[i]])
    ensures Remaining(code, i)[1..] == Remaining(code, i + 1)
  {
  }

  lemma InExpansion1(code: string)
    requires IsCode(code) && |code| >= 1
    ensures Elems(Singletons(Reverse[code[0]])) == Expansion(code[..1])
  {
    var ys := Singletons(Reverse[code[0]]);
    forall e
      ensures e in ys <==> e in Expansion(code[..1])
    {
      InExpansion(code[..1], e);
      if e in ys {
        var j :| 0 <= j < |ys| && ys[j] == e;
        assert Reverse[code[0]][j] in Reverse[code[0]];
      }
      if |e| == 1 && e[0] in Reverse[code[0]] {
        var j :| 0 <= j < |Reverse[code[0]]| && Reverse[code[0]][j] == e[0];
        assert ys[j] == e;
      }
    }
  }

  /** The prefix oracle: some input kmer starts with s (s may be a whole kmer). */
  predicate HasPrefixIn(input: seq<string>, s: string): (found: bool)
    ensures s in input ==> found
    ensures found ==> |input| > 0
  {
    exists x | x in input :: s <= x
  }

  /** Every string the code stands for occurs as a prefix of some input kmer. */
  ghost predicate PrefixValid(input: seq<string>, code: string)
    requires IsCode(code)
  {
    forall e | e in Expansion(code) :: HasPrefixIn(input, e)
  }

  /**
   * test_encoded_candidate: reject the code as soon as one of its expansions
   * is a prefix of no input kmer. The trie lookup is the prefix oracle above.
   */
  method TestEncodedCandidate(input: seq<string>, code: string) returns (ok: bool)
    requires |code| >= 1 && IsCode(code)
    ensures |code| >= 2 ==> (ok <==> PrefixValid(input, code))
    ensures |code| == 1 ==> ok
  {
    var expanded := ExpandEncodedCandidate(code);
    var rest := expanded;
    while rest != {}
      invariant rest <= expanded
      invariant forall e | e in expanded - rest :: HasPrefixIn(input, e)
      decreases rest
    {
      var ec :| ec in rest;
      if !HasPrefixIn(input, ec) {
        return false;
      }
      rest := rest - {ec};
    }
    return true;
  }
}
