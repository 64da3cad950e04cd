module Scenarios {
  import opened Substitutions
  import opened EncodedCandidates
  import opened Collapse

  /** The first sample input of main: two kmers that differ only in their first base. */
  const TwoKmers: seq<string> := ["AAAAAAAAAA", "TAAAAAAAAA"]

  /** A symbol that may stand in for a base when only A and T are observed. */
  lemma SubstitutesOfAT(b: char, s: char)
    requires b in {'A', 'T'}
    ensures MaySubstitute({'A', 'T'}, b, s) <==> s == 'W' || s == b
  {
    if s == 'W' || s == b {
      assert Reverse['W'] == "AT" && Reverse['A'] == "A" && Reverse['T'] == "T";
      assert b in Reverse[s];
    } else if s in Reverse {
      var m := Reverse[s];
      if s in "RSKBDVNG" {
        assert 'G' in m && 'G' in Members(s);
      } else if s in "YMHC" {
        assert 'C' in m && 'C' in Members(s);
      } else {
        assert s in "AT" && m == [s] && Members(s) == {s};
      }
    }
  }

  /** Only A itself may stand in for A in a column where A alone is observed. */
  lemma SubstitutesOfA(s: char)
    ensures MaySubstitute({'A'}, 'A', s) <==> s == 'A'
  {
    if MaySubstitute({'A'}, 'A', s) {
      assert Members(s) == {'A'};
      SymbolOfMembers(s);
    }
    if s == 'A' {
      assert Reverse['A'] == "A";
      assert Members(s) == {'A'};
    }
  }

  /** A duplicate-free list ending in b with exactly the members {a, b} is a followed by b. */
  lemma TwoElementList<T>(list: seq<T>, a: T, b: T)
    requires a != b && list != [] && list[|list| - 1] == b && NoDup(list)
    requires forall s :: s in list <==> s == a || s == b
    ensures list == [a, b]
  {
    NoDupCard(list);
    assert Elems(list) == {a, b};
    assert |list| == 2;
    assert list[0] in list;
  }

  /** The input is well formed, and its first column holds A and T. */
  lemma TwoKmersObserved()
    ensures WellFormed(TwoKmers) && K(TwoKmers) == 10
    ensures ColumnBases(TwoKmers, 0) == {'A', 'T'}
    ensures forall i | 1 <= i < 10 :: ColumnBases(TwoKmers, i) == {'A'}
  {
    assert TwoKmers[0] in TwoKmers && TwoKmers[1] in TwoKmers;
    forall i | 1 <= i < 10
      ensures ColumnBases(TwoKmers, i) == {'A'}
    {
      assert TwoKmers[0][i] == 'A' && TwoKmers[1][i] == 'A';
    }
  }

  /** Column 0 of that input: A may be replaced by W, and so may T; each base is its own last substitute. */
  lemma TwoKmersColumnZero(pce: map<char, string>)
    requires WellFormed(TwoKmers) && ColumnEncoded(TwoKmers, 0, pce)
    ensures pce == map['A' := "WA", 'T' := "WT"]
  {
    TwoKmersObserved();
    forall b | b in pce
      ensures pce[b] == ['W', b]
    {
      assert b in {'A', 'T'};
      forall s
        ensures s in pce[b] <==> s == 'W' || s == b
      {
        SubstitutesOfAT(b, s);
      }
      TwoElementList(pce[b], 'W', b);
    }
  }

  /** "WAAAAAAAAA" stands for exactly the two kmers of the sample. */
  lemma ExpansionOfWAAAAAAAAA()
    ensures IsCode("WAAAAAAAAA") && Expansion("WAAAAAAAAA") == Elems(TwoKmers)
  {
    forall e
      ensures e in Expansion("WAAAAAAAAA") <==> e in Elems(TwoKmers)
    {
      InExpansion("WAAAAAAAAA", e);
      StandsForTwoKmers(e);
      assert e in Elems(TwoKmers) <==> e == "AAAAAAAAAA" || e == "TAAAAAAAAA";
    }
  }

  lemma StandsForTwoKmers(e: string)
    ensures IsCode("WAAAAAAAAA")
    ensures (|e| == 10 && forall i | 0 <= i < 10 :: e[i] in Reverse["WAAAAAAAAA"[i]])
            <==> e == "AAAAAAAAAA" || e == "TAAAAAAAAA"
  {
    var code := "WAAAAAAAAA";
    assert Reverse['W'] == "AT" && Reverse['A'] == "A";
    assert forall i | 1 <= i < 10 :: code[i] == 'A';
    if |e| == 10 && forall i | 0 <= i < 10 :: e[i] in Reverse[code[i]] {
      assert e[0] in "AT";
      var lit := if e[0] == 'A' then "AAAAAAAAAA" else "TAAAAAAAAA";
      forall i | 0 <= i < 10
        ensures e[i] == lit[i]
      {
        if i > 0 {
          assert e[i] in Reverse[code[i]];
        }
      }
    }
  }

  /**
   * Once the resolver has chosen an encoding that stands for every input kmer,
   * disjointness leaves no room for another: with the sample input, choosing
   * "WAAAAAAAAA" makes it the whole result.
   */
  lemma SoleEncoding(input: seq<string>, encodings: set<string>, e: string)
    requires forall c | c in encodings :: IsCode(c) && Expansion(c) <= Elems(input)
    requires PairwiseDisjoint(encodings) && e in encodings && Expansion(e) == Elems(input)
    ensures encodings == {e}
  {
    forall c | c in encodings
      ensures c == e
    {
      ExpansionNonEmpty(c);
    }
  }

  /** The full-length candidates of the first kmer: the W-encoding and the literal kmer itself. */
  lemma FirstKmerCandidates(cand: string)
    ensures WellFormed(TwoKmers) && TwoKmers[0] in TwoKmers
    ensures CandidateShape(TwoKmers, TwoKmers[0], cand, 10) <==> cand == "WAAAAAAAAA" || cand == "AAAAAAAAAA"
  {
    TwoKmersObserved();
    assert TwoKmers[0] in TwoKmers;
    if CandidateShape(TwoKmers, TwoKmers[0], cand, 10) {
      ShapedFirstCandidate(cand);
    }
    WShaped();
    LiteralShaped();
  }

  lemma ShapedFirstCandidate(cand: string)
    requires WellFormed(TwoKmers) && TwoKmers[0] in TwoKmers && K(TwoKmers) == 10
    requires CandidateShape(TwoKmers, TwoKmers[0], cand, 10)
    ensures cand == "WAAAAAAAAA" || cand == "AAAAAAAAAA"
  {
    TwoKmersObserved();
    var x := TwoKmers[0];
    assert MaySubstitute({'A', 'T'}, 'A', cand[0]);
    SubstitutesOfAT('A', cand[0]);
    forall i | 1 <= i < 10
      ensures cand[i] == 'A'
    {
      assert MaySubstitute(ColumnBases(TwoKmers, i), x[i], cand[i]);
      SubstitutesOfA(cand[i]);
    }
    TenSymbols(cand);
  }

  /** A ten-symbol code that is W or A, then nine As. */
  lemma TenSymbols(cand: string)
    requires |cand| == 10 && (cand[0] == 'W' || cand[0] == 'A')
    requires forall i | 1 <= i < 10 :: cand[i] == 'A'
    ensures cand == "WAAAAAAAAA" || cand == "AAAAAAAAAA"
  {
    assert cand[1..] == "AAAAAAAAA";
    assert cand == [cand[0]] + cand[1..];
  }

  /** The W-encoding has the shape of a full-length candidate of the first kmer. */
  lemma WShaped()
    ensures WellFormed(TwoKmers) && TwoKmers[0] in TwoKmers
    ensures CandidateShape(TwoKmers, TwoKmers[0], "WAAAAAAAAA", 10)
  {
    TwoKmersObserved();
    var x, cand := TwoKmers[0], "WAAAAAAAAA";
    assert x in TwoKmers;
    SubstitutesOfAT('A', 'W');
    forall i | 1 <= i < 10
      ensures MaySubstitute(ColumnBases(TwoKmers, i), x[i], cand[i])
    {
      SubstitutesOfA(cand[i]);
    }
    ExpansionOfWAAAAAAAAA();
    forall e | e in Expansion(cand)
      ensures HasPrefixIn(TwoKmers, e)
    {
      assert e in TwoKmers && e <= e;
    }
  }

  /** So has the first kmer itself. */
  lemma LiteralShaped()
    ensures WellFormed(TwoKmers) && TwoKmers[0] in TwoKmers
    ensures CandidateShape(TwoKmers, TwoKmers[0], "AAAAAAAAAA", 10)
  {
    TwoKmersObserved();
    var x := TwoKmers[0];
    assert x in TwoKmers;
    SubstitutesOfAT('A', 'A');
    forall i | 1 <= i < 10
      ensures MaySubstitute(ColumnBases(TwoKmers, i), x[i], x[i])
    {
      SubstitutesOfA(x[i]);
    }
    LiteralPrefixValid(TwoKmers, x, 10);
    assert x[..10] == x;
  }

  /** With the sample input, the first kmer's final candidates are "WAAAAAAAAA" and then the kmer itself. */
  lemma FirstKmerRow(cands: seq<seq<string>>)
    requires WellFormed(TwoKmers) && RowsShaped(TwoKmers, cands, 10)
    ensures cands[0] == ["WAAAAAAAAA", "AAAAAAAAAA"]
  {
    TwoKmersObserved();
    var x := TwoKmers[0];
    assert RowShape(TwoKmers, x, cands[0], 10);
    assert x[..10] == "AAAAAAAAAA";
    forall cand
      ensures cand in cands[0] <==> cand == "WAAAAAAAAA" || cand == "AAAAAAAAAA"
    {
      FirstKmerCandidates(cand);
    }
    TwoElementList(cands[0], "WAAAAAAAAA", "AAAAAAAAAA");
  }

  /**
   * main on the sample input: the resolver primes with the first candidate of
   * the first kmer, "WAAAAAAAAA", which stands for both kmers, so it is the
   * whole output.
   */
  method CollapseTwoKmers() returns (encodings: set<string>)
    ensures encodings == {"WAAAAAAAAA"}
  {
    TwoKmersObserved();
    ghost var cands, hist;
    encodings, cands, hist := Collapse.Collapse(TwoKmers);
    FirstKmerRow(cands);
    ExpansionOfWAAAAAAAAA();
    SoleEncoding(TwoKmers, encodings, "WAAAAAAAAA");
  }
}
