/**
 * The body of main in kmer-collapse: per-column substitute lists, per-kmer
 * candidate encodings grown and pruned column by column, and the greedy
 * resolver that picks encodings whose expansions never overlap.
 */
module Collapse {
  import opened Substitutions
  import opened Subsets
  import opened EncodedCandidates

  /** What main silently expects of its input: at least one kmer, all of one length, over A, C, G, T. */
  predicate WellFormed(input: seq<string>) {
    |input| > 0 && forall x | x in input :: |x| == |input[0]| && IsKmer(x)
  }

  /** The kmer length k. */
  function K(input: seq<string>): (k: nat)
    requires |input| > 0
  {
    |input[0]|
  }

  /** The bases observed at column col across all kmers. */
  ghost function ColumnBases(input: seq<string>, col: nat): (obs: set<char>)
    requires forall x | x in input :: col < |x|
  {
    set x | x in input :: x[col]
  }

  /** Symbol s may stand in for base b in a column whose observed bases are obs. */
  ghost predicate MaySubstitute(obs: set<char>, b: char, s: char) {
    s in Reverse && b in Members(s) && Members(s) <= obs
  }

  // ---------------------------------------------------------------------------
  // Column encoder

  /** list(set(column)): the distinct bases of one column, in an arbitrary order. */
  method ObservedBases(input: seq<string>, col: nat) returns (bases: seq<char>)
    requires forall x | x in input :: col < |x|
    ensures NoDup(bases) && Elems(bases) == ColumnBases(input, col)
  {
    var column: set<char> := {};
    for r := 0 to |input|
      invariant column == set x | x in input[..r] :: x[col]
    {
      assert input[..r + 1] == input[..r] + [input[r]];
      column := column + {input[r][col]};
    }
    assert input[..|input|] == input;
    bases := [];
    var rest := column;
    while rest != {}
      invariant NoDup(bases) && Elems(bases) + rest == column && Elems(bases) !! rest
      decreases rest
    {
      var b :| b in rest;
      ConsFactsEnd(bases, b);
      bases := bases + [b];
      rest := rest - {b};
    }
  }

  lemma ConsFactsEnd<T>(s: seq<T>, x: T)
    requires NoDup(s) && x !in s
    ensures NoDup(s + [x]) && Elems(s + [x]) == Elems(s) + {x}
  {
  }

  /** The (base, symbol) pairs recorded in a dictionary of substitute lists. */
  ghost function PairsOf(pce: map<char, string>): (pairs: set<(char, char)>) {
    set b, s | b in pce && s in pce[b] :: (b, s)
  }

  /** The (base, symbol) pairs that the subsets found in the forward table contribute. */
  ghost function Contributions(subsets: seq<string>, fwd: map<string, char>): (pairs: set<(char, char)>) {
    set t, b | t in subsets && t in fwd && b in t :: (b, fwd[t])
  }

  /** Substitute lists as the first loop leaves them: non-empty, repetition-free, degenerate symbols only. */
  ghost predicate MergeLists(pce: map<char, string>) {
    forall b | b in pce :: pce[b] != [] && NoDup(pce[b]) && forall s | s in pce[b] :: s !in Bases
  }

  lemma AppendPair(pce: map<char, string>, b: char, v: char)
    requires b in pce
    ensures PairsOf(pce[b := pce[b] + [v]]) == PairsOf(pce) + {(b, v)}
  {
    var pce' := pce[b := pce[b] + [v]];
    forall p | p in PairsOf(pce')
      ensures p in PairsOf(pce) + {(b, v)}
    {
      var b', s :| b' in pce' && s in pce'[b'] && p == (b', s);
      if b' == b && s != v {
        assert s in pce[b];
      }
    }
  }

  lemma ContributionsStep(subsets: seq<string>, j: nat, fwd: map<string, char>)
    requires j < |subsets|
    ensures Contributions(subsets[..j + 1], fwd)
         == Contributions(subsets[..j], fwd)
          + (if subsets[j] in fwd then set b | b in subsets[j] :: (b, fwd[subsets[j]]) else {})
  {
    assert subsets[..j + 1] == subsets[..j] + [subsets[j]];
  }

  /**
   * The first loop of the column encoder: for every subset in the forward
   * table, record its symbol as a substitute for each of its bases, once.
   */
  method RecordMerges(subsets: seq<string>, fwd: map<string, char>) returns (pce: map<char, string>)
    requires forall t | t in fwd :: fwd[t] !in Bases
    ensures PairsOf(pce) == Contributions(subsets, fwd)
    ensures MergeLists(pce)
  {
    pce := map[];
    for j := 0 to |subsets|
      invariant PairsOf(pce) == Contributions(subsets[..j], fwd)
      invariant MergeLists(pce)
    {
      var tk := subsets[j];
      ContributionsStep(subsets, j, fwd);
      if tk in fwd {
        pce := RecordKey(pce, tk, fwd[tk]);
      }
    }
    assert subsets[..|subsets|] == subsets;
  }

  /** The inner loop of the first: record v once under every base of the key tk. */
  method RecordKey(pce0: map<char, string>, tk: string, v: char) returns (pce: map<char, string>)
    requires MergeLists(pce0) && v !in Bases
    ensures PairsOf(pce) == PairsOf(pce0) + set b | b in tk :: (b, v)
    ensures MergeLists(pce)
  {
    pce := pce0;
    for m := 0 to |tk|
      invariant PairsOf(pce) == PairsOf(pce0) + set b | b in tk[..m] :: (b, v)
      invariant MergeLists(pce)
    {
      var tkb := tk[m];
      assert tk[..m + 1] == tk[..m] + [tkb];
      pce := RecordPair(pce, tkb, v);
    }
    assert tk[..|tk|] == tk;
  }

  /** The body of that inner loop: v joins b's list unless it is already there. */
  method RecordPair(pce0: map<char, string>, b: char, v: char) returns (pce: map<char, string>)
    requires MergeLists(pce0) && v !in Bases
    ensures pce.Keys == pce0.Keys + {b}
    ensures PairsOf(pce) == PairsOf(pce0) + {(b, v)}
    ensures MergeLists(pce)
  {
    pce := pce0;
    if b !in pce {
      pce := pce[b := []];
    }
    if v !in pce[b] {
      AppendPair(pce, b, v);
      pce := pce[b := pce[b] + [v]];
    }
  }

  /** The second loop of the column encoder: every observed base substitutes for itself, last. */
  method AppendSelves(pce0: map<char, string>, bases: seq<char>) returns (pce: map<char, string>)
    requires NoDup(bases)
    ensures pce.Keys == pce0.Keys + Elems(bases)
    ensures forall b | b in pce ::
              pce[b] == (if b in pce0 then pce0[b] else []) + (if b in bases then [b] else [])
  {
    pce := pce0;
    for j := 0 to |bases|
      invariant pce.Keys == pce0.Keys + Elems(bases[..j])
      invariant forall b | b in pce ::
                  pce[b] == (if b in pce0 then pce0[b] else []) + (if b in bases[..j] then [b] else [])
    {
      var b := bases[j];
      PrefixStep(bases, j);
      assert b !in bases[..j];
      var own := if b in pce then pce[b] else [];
      pce := pce[b := own + [b]];
    }
    assert bases[..|bases|] == bases;
  }

  /** A degenerate symbol stands for at least two bases. */
  lemma DegenerateHasTwo(s: char)
    requires s in Reverse && s !in Bases
    ensures |Members(s)| >= 2
  {
    var i :| 0 <= i < |RawForward| && RawForward[i].1 == s by {
      DegenerateIsRaw(s);
    }
    RawForwardAgrees(i);
    NoDupCard(Reverse[s]);
  }

  /**
   * The symbol recorded for base b from the subsets of the observed bases are
   * exactly the degenerate symbols containing b whose members were all observed.
   */
  lemma ColumnContributions(bases: seq<char>, fwd: map<string, char>, b: char, s: char)
    requires NoDup(bases) && |bases| >= 1 && Elems(bases) <= Bases && IsForwardTable(fwd)
    ensures (b, s) in Contributions(Powerset(bases), fwd) <==> s !in Bases && MaySubstitute(Elems(bases), b, s)
  {
    if (b, s) in Contributions(Powerset(bases), fwd) {
      ContributionSound(bases, fwd, b, s);
    }
    if s !in Bases && MaySubstitute(Elems(bases), b, s) {
      ContributionComplete(bases, fwd, b, s);
    }
  }

  lemma ContributionSound(bases: seq<char>, fwd: map<string, char>, b: char, s: char)
    requires IsForwardTable(fwd) && (b, s) in Contributions(Powerset(bases), fwd)
    ensures s !in Bases && MaySubstitute(Elems(bases), b, s)
  {
    var t, b' :| t in Powerset(bases) && t in fwd && b' in t && (b, s) == (b', fwd[t]);
    PowersetSublists(bases, t);
    SublistElems(t, bases);
  }

  lemma ContributionComplete(bases: seq<char>, fwd: map<string, char>, b: char, s: char)
    requires NoDup(bases) && Elems(bases) <= Bases && IsForwardTable(fwd)
    requires s !in Bases && MaySubstitute(Elems(bases), b, s)
    ensures (b, s) in Contributions(Powerset(bases), fwd)
  {
    var m := Members(s);
    var t := Filter(bases, m);
    assert Elems(t) == m;
    assert |t| >= 2 by {
      DegenerateHasTwo(s);
      NoDupCard(t);
    }
    assert t in Powerset(bases) by {
      PowersetSublists(bases, t);
    }
    assert t in fwd && Members(fwd[t]) == m;
    assert fwd[t] == s by {
      SymbolOfMembers(s);
      SymbolOfMembers(fwd[t]);
    }
    assert b in t;
    assert (b, fwd[t]) in Contributions(Powerset(bases), fwd);
  }

  /** What the column encoder guarantees of per_column_encodings for column col. */
  ghost predicate ColumnEncoded(input: seq<string>, col: nat, pce: map<char, string>)
    requires WellFormed(input) && col < K(input)
  {
    && pce.Keys == ColumnBases(input, col)
    && (forall b | b in pce :: pce[b] != [] && pce[b][|pce[b]| - 1] == b && NoDup(pce[b]))
    && (forall b, s | b in pce :: s in pce[b] <==> MaySubstitute(ColumnBases(input, col), b, s))
  }

  /**
   * The column encoder: for every base b observed at column col, the list of
   * symbols that may stand in for it, each once, b itself last.
   */
  method ColumnEncodings(input: seq<string>, col: nat, fwd: map<string, char>) returns (pce: map<char, string>)
    requires WellFormed(input) && col < K(input) && IsForwardTable(fwd)
    ensures ColumnEncoded(input, col, pce)
  {
    var bases := ObservedBases(input, col);
    var obs := ColumnBases(input, col);
    assert obs <= Bases;
    assert input[0][col] in obs;
    var subsets := Powerset(bases);
    var merged := RecordMerges(subsets, fwd);
    forall b, s
      ensures (b, s) in PairsOf(merged) <==> s !in Bases && MaySubstitute(obs, b, s)
    {
      ColumnContributions(bases, fwd, b, s);
    }
    assert merged.Keys <= obs by {
      forall b | b in merged
        ensures b in obs
      {
        assert (b, merged[b][0]) in PairsOf(merged);
      }
    }
    pce := AppendSelves(merged, bases);
    SelvesAppended(input, col, merged, pce);
  }

  /**
   * Appending each observed base to its own list completes the column: the
   * merged symbols are exactly the non-plain substitutes, and the base itself
   * is the one plain symbol that may stand in for it.
   */
  lemma SelvesAppended(input: seq<string>, col: nat, merged: map<char, string>, pce: map<char, string>)
    requires WellFormed(input) && col < K(input) && MergeLists(merged)
    requires merged.Keys <= ColumnBases(input, col)
    requires forall b, s :: (b, s) in PairsOf(merged) <==> s !in Bases && MaySubstitute(ColumnBases(input, col), b, s)
    requires pce.Keys == merged.Keys + ColumnBases(input, col)
    requires forall b | b in pce :: pce[b] == (if b in merged then merged[b] else []) + [b]
    ensures ColumnEncoded(input, col, pce)
  {
    var obs := ColumnBases(input, col);
    forall b, s | b in pce
      ensures s in pce[b] <==> MaySubstitute(obs, b, s)
    {
      SelfAppended(input, col, merged, b, s, pce[b]);
    }
    forall b | b in pce
      ensures NoDup(pce[b])
    {
      if b in merged {
        ConsFactsEnd(merged[b], b);
      }
    }
  }

  lemma SelfAppended(input: seq<string>, col: nat, merged: map<char, string>, b: char, s: char, list: string)
    requires WellFormed(input) && col < K(input) && MergeLists(merged) && b in ColumnBases(input, col)
    requires forall s | s in Bases :: (b, s) !in PairsOf(merged)
    requires (b, s) in PairsOf(merged) <==> s !in Bases && MaySubstitute(ColumnBases(input, col), b, s)
    requires list == (if b in merged then merged[b] else []) + [b]
    ensures s in list <==> MaySubstitute(ColumnBases(input, col), b, s)
  {
    PlainBase(b);
    if s in Bases {
      PlainBase(s);
    }
    if b in merged {
      assert s in merged[b] <==> (b, s) in PairsOf(merged);
    }
  }

  // ---------------------------------------------------------------------------
  // Candidate builder and pruner

  /** Extending one old candidate oc by each substitute in turn, keeping those the prefix test accepts. */
  ghost function Filtered(input: seq<string>, oc: string, subs: string): (kept: seq<string>)
    requires IsCode(oc) && IsCode(subs)
  {
    if subs == [] then []
    else
      var nc := oc + [subs[|subs| - 1]];
      assert IsCode(nc);
      Filtered(input, oc, subs[..|subs| - 1]) + (if PrefixValid(input, nc) then [nc] else [])
  }

  /** One row's new candidate list: every old candidate, in order, extended as Filtered says. */
  ghost function Extensions(input: seq<string>, olds: seq<string>, subs: string): (news: seq<string>)
    requires forall oc | oc in olds :: IsCode(oc)
    requires IsCode(subs)
  {
    if olds == [] then []
    else Extensions(input, olds[..|olds| - 1], subs) + Filtered(input, olds[|olds| - 1], subs)
  }

  lemma {:induction false} FilteredMembers(input: seq<string>, oc: string, subs: string, c: string)
    requires IsCode(oc) && IsCode(subs)
    ensures c in Filtered(input, oc, subs) <==>
              |c| == |oc| + 1 && c[..|oc|] == oc && c[|oc|] in subs && IsCode(c) && PrefixValid(input, c)
  {
    if subs != [] {
      var init := subs[..|subs| - 1];
      FilteredMembers(input, oc, init, c);
      assert forall y :: y in subs <==> y in init || y == subs[|subs| - 1];
      if |c| == |oc| + 1 && c[..|oc|] == oc {
        assert c == oc + [c[|oc|]];
      }
    }
  }

  /** A new candidate is an old candidate plus one substitute, and passes the prefix test. */
  lemma {:induction false} ExtensionsMembers(input: seq<string>, olds: seq<string>, subs: string, c: string)
    requires forall oc | oc in olds :: IsCode(oc)
    requires IsCode(subs)
    ensures c in Extensions(input, olds, subs) <==>
              |c| >= 1 && c[..|c| - 1] in olds && c[|c| - 1] in subs && IsCode(c) && PrefixValid(input, c)
  {
    if olds != [] {
      var init, last := olds[..|olds| - 1], olds[|olds| - 1];
      ExtensionsMembers(input, init, subs, c);
      FilteredMembers(input, last, subs, c);
      assert forall y :: y in olds <==> y in init || y == last;
    }
  }

  /** The literal extension of the last old candidate by the last substitute, if accepted, comes last. */
  lemma ExtensionsLast(input: seq<string>, olds: seq<string>, subs: string)
    requires forall oc | oc in olds :: IsCode(oc)
    requires IsCode(subs) && olds != [] && subs != []
    requires var nc := olds[|olds| - 1] + [subs[|subs| - 1]]; IsCode(nc) && PrefixValid(input, nc)
    ensures var r := Extensions(input, olds, subs);
            r != [] && r[|r| - 1] == olds[|olds| - 1] + [subs[|subs| - 1]]
  {
  }

  /**
   * One row of the candidate builder at a column after the first: every old
   * candidate extended by every substitute, kept when the prefix test passes.
   */
  method ExtendRow(input: seq<string>, olds: seq<string>, subs: string) returns (news: seq<string>)
    requires forall oc | oc in olds :: |oc| >= 1 && IsCode(oc)
    requires IsCode(subs)
    ensures news == Extensions(input, olds, subs)
  {
    news := [];
    for j := 0 to |olds|
      invariant news == Extensions(input, olds[..j], subs)
    {
      assert olds[..j + 1][..j] == olds[..j];
      var kept := ExtendCandidate(input, olds[j], subs);
      news := news + kept;
    }
    assert olds[..|olds|] == olds;
  }

  /** One old candidate extended by each substitute in turn, keeping those that pass the prefix test. */
  method ExtendCandidate(input: seq<string>, oc: string, subs: string) returns (kept: seq<string>)
    requires |oc| >= 1 && IsCode(oc) && IsCode(subs)
    ensures kept == Filtered(input, oc, subs)
  {
    kept := [];
    for m := 0 to |subs|
      invariant kept == Filtered(input, oc, subs[..m])
    {
      var nc := oc + [subs[m]];
      assert subs[..m + 1][..m] == subs[..m];
      var ok := TestEncodedCandidate(input, nc);
      if ok {
        kept := kept + [nc];
      }
    }
    assert subs[..|subs|] == subs;
  }

  /**
   * A candidate for kmer x after c columns: c symbols, each allowed to stand in
   * for x's base at its column, and every expansion a prefix of some input kmer.
   */
  ghost predicate CandidateShape(input: seq<string>, x: string, cand: string, c: nat)
    requires WellFormed(input) && x in input && c <= K(input)
  {
    && |cand| == c && IsCode(cand)
    && (forall i | 0 <= i < c :: MaySubstitute(ColumnBases(input, i), x[i], cand[i]))
    && PrefixValid(input, cand)
  }

  /**
   * One row's candidate list once columns 0 .. c-1 are processed, x being the
   * row's kmer: exactly the candidates CandidateShape describes, each once,
   * with x's literal prefix last.
   */
  ghost predicate RowShape(input: seq<string>, x: string, cands: seq<string>, c: nat)
    requires WellFormed(input) && x in input && c <= K(input)
  {
    && (c == 0 ==> cands == [])
    && (c >= 1 ==> cands != [] && cands[|cands| - 1] == x[..c])
    && (forall cand | cand in cands :: CandidateShape(input, x, cand, c))
    && (c >= 1 ==> forall cand | CandidateShape(input, x, cand, c) :: cand in cands)
    && NoDup(cands)
  }

  /** The prefix test is closed under dropping the last symbol. */
  lemma PrefixValidInit(input: seq<string>, code: string)
    requires |code| >= 1 && IsCode(code) && PrefixValid(input, code)
    ensures IsCode(code[..|code| - 1]) && PrefixValid(input, code[..|code| - 1])
  {
    var n := |code| - 1;
    var init := code[..n];
    ExpansionNonEmpty([code[n]]);
    var f :| f in Expansion([code[n]]);
    InExpansion([code[n]], f);
    forall e | e in Expansion(init)
      ensures HasPrefixIn(input, e)
    {
      InExpansion(init, e);
      var e' := e + [f[0]];
      InExpansion(code, e');
      var y :| y in input && e' <= y;
      assert e <= y;
    }
  }

  /** The literal prefix of a kmer always passes the prefix test. */
  lemma LiteralPrefixValid(input: seq<string>, x: string, c: nat)
    requires WellFormed(input) && x in input && c <= K(input)
    ensures IsCode(x[..c]) && PrefixValid(input, x[..c])
  {
    assert IsKmer(x[..c]);
    LiteralExpansion(x[..c]);
  }

  /** Every substitute in a column's list is a symbol that may stand in for its base. */
  lemma EncodedSymbols(input: seq<string>, col: nat, pce: map<char, string>, b: char)
    requires WellFormed(input) && col < K(input) && ColumnEncoded(input, col, pce) && b in pce
    ensures forall i | 0 <= i < |pce[b]| :: MaySubstitute(ColumnBases(input, col), b, pce[b][i])
    ensures IsCode(pce[b]) && SubstituteList(input, col, b, pce[b])
  {
    forall i | 0 <= i < |pce[b]|
      ensures MaySubstitute(ColumnBases(input, col), b, pce[b][i])
    {
      assert pce[b][i] in pce[b];
    }
  }

  /** subs lists, once each, exactly the symbols that may stand in for base b at column col, b itself last. */
  ghost predicate SubstituteList(input: seq<string>, col: nat, b: char, subs: string)
    requires WellFormed(input) && col < K(input)
  {
    && subs != [] && subs[|subs| - 1] == b && IsCode(subs) && NoDup(subs)
    && (forall s | s in subs :: MaySubstitute(ColumnBases(input, col), b, s))
    && (forall s | MaySubstitute(ColumnBases(input, col), b, s) :: s in subs)
  }

  /** Column 0: each substitute of the row's first base becomes a one-symbol candidate. */
  lemma InitialRowShape(input: seq<string>, x: string, pce: map<char, string>, row: seq<string>)
    requires WellFormed(input) && x in input && K(input) >= 1 && ColumnEncoded(input, 0, pce)
    requires x[0] in pce && row == Singletons(pce[x[0]])
    ensures RowShape(input, x, row, 1)
  {
    var subs := pce[x[0]];
    assert row[|row| - 1] == [x[0]] == x[..1];
    forall i | 0 <= i < |row|
      ensures CandidateShape(input, x, row[i], 1)
    {
      InitialCandidate(input, x, pce, i);
    }
    forall cand | CandidateShape(input, x, cand, 1)
      ensures cand in row
    {
      assert cand[0] in subs;
      var j :| 0 <= j < |subs| && subs[j] == cand[0];
      assert row[j] == cand;
    }
    forall i, j | 0 <= i < j < |row|
      ensures row[i] != row[j]
    {
      assert row[i][0] == subs[i] && row[j][0] == subs[j];
    }
  }

  lemma InitialCandidate(input: seq<string>, x: string, pce: map<char, string>, i: nat)
    requires WellFormed(input) && x in input && K(input) >= 1 && ColumnEncoded(input, 0, pce)
    requires x[0] in pce && i < |pce[x[0]]|
    ensures CandidateShape(input, x, [pce[x[0]][i]], 1)
  {
    EncodedSymbols(input, 0, pce, x[0]);
    var s := pce[x[0]][i];
    var cand := [s];
    forall e | e in Expansion(cand)
      ensures HasPrefixIn(input, e)
    {
      InExpansion(cand, e);
      assert e[0] in Members(s);
      var y :| y in input && y[0] == e[0];
      assert e == y[..1];
    }
  }

  /** A later column keeps the shape: candidates grow by one substitute and the literal prefix survives, last. */
  lemma ExtendedRowShape(input: seq<string>, x: string, col: nat, subs: string, olds: seq<string>)
    requires WellFormed(input) && x in input && 1 <= col < K(input) && SubstituteList(input, col, x[col], subs)
    requires RowShape(input, x, olds, col)
    ensures forall oc | oc in olds :: |oc| >= 1 && IsCode(oc)
    ensures RowShape(input, x, Extensions(input, olds, subs), col + 1)
  {
    LiteralExtends(x, col, olds[|olds| - 1], subs[|subs| - 1]);
    LiteralPrefixValid(input, x, col + 1);
    ExtensionsLast(input, olds, subs);
    ExtendedCandidates(input, x, col, subs, olds);
    ExtendedComplete(input, x, col, subs, olds);
    ExtensionsNoDup(input, olds, subs);
  }

  /** Every candidate of the right shape one column on is an old candidate extended by one substitute. */
  lemma ExtendedComplete(input: seq<string>, x: string, col: nat, subs: string, olds: seq<string>)
    requires WellFormed(input) && x in input && 1 <= col < K(input) && SubstituteList(input, col, x[col], subs)
    requires RowShape(input, x, olds, col)
    ensures forall oc | oc in olds :: IsCode(oc)
    ensures forall cand | CandidateShape(input, x, cand, col + 1) :: cand in Extensions(input, olds, subs)
  {
    forall cand | CandidateShape(input, x, cand, col + 1)
      ensures cand in Extensions(input, olds, subs)
    {
      var oc := cand[..col];
      PrefixValidInit(input, cand);
      forall i | 0 <= i < col
        ensures MaySubstitute(ColumnBases(input, i), x[i], oc[i])
      {
        assert oc[i] == cand[i];
      }
      assert CandidateShape(input, x, oc, col);
      assert cand[col] in subs;
      ExtensionsMembers(input, olds, subs, cand);
    }
  }

  /** A duplicate-free list of substitutes extends one candidate into duplicate-free new ones. */
  lemma {:induction false} FilteredNoDup(input: seq<string>, oc: string, subs: string)
    requires IsCode(oc) && IsCode(subs) && NoDup(subs)
    ensures NoDup(Filtered(input, oc, subs))
  {
    if subs != [] {
      var init := subs[..|subs| - 1];
      var last := subs[|subs| - 1];
      FilteredNoDup(input, oc, init);
      var front := Filtered(input, oc, init);
      forall c | c in front
        ensures c != oc + [last]
      {
        FilteredMembers(input, oc, init, c);
        assert c[|oc|] in init;
      }
      NoDupAppend(front, if PrefixValid(input, oc + [last]) then [oc + [last]] else []);
    }
  }

  /** Duplicate-free old candidates and substitutes give duplicate-free new candidates. */
  lemma {:induction false} ExtensionsNoDup(input: seq<string>, olds: seq<string>, subs: string)
    requires forall oc | oc in olds :: IsCode(oc)
    requires IsCode(subs) && NoDup(olds) && NoDup(subs)
    ensures NoDup(Extensions(input, olds, subs))
  {
    if olds != [] {
      var init, last := olds[..|olds| - 1], olds[|olds| - 1];
      ExtensionsNoDup(input, init, subs);
      FilteredNoDup(input, last, subs);
      var front, back := Extensions(input, init, subs), Filtered(input, last, subs);
      forall c | c in front
        ensures c !in back
      {
        ExtensionsMembers(input, init, subs, c);
        FilteredMembers(input, last, subs, c);
      }
      NoDupAppend(front, back);
    }
  }

  lemma NoDupAppend<T>(a: seq<T>, b: seq<T>)
    requires NoDup(a) && NoDup(b) && forall x | x in a :: x !in b
    ensures NoDup(a + b)
  {
    forall i, j | 0 <= i < j < |a + b|
      ensures (a + b)[i] != (a + b)[j]
    {
      if i < |a| && j >= |a| {
        assert (a + b)[i] in a && (a + b)[j] == b[j - |a|];
      }
    }
  }

  lemma LiteralExtends(x: string, col: nat, prefix: string, b: char)
    requires col < |x| && prefix == x[..col] && b == x[col]
    ensures prefix + [b] == x[..col + 1]
  {
  }

  lemma ExtendedCandidates(input: seq<string>, x: string, col: nat, subs: string, olds: seq<string>)
    requires WellFormed(input) && x in input && 1 <= col < K(input) && SubstituteList(input, col, x[col], subs)
    requires forall oc | oc in olds :: IsCode(oc) && CandidateShape(input, x, oc, col)
    ensures forall cand | cand in Extensions(input, olds, subs) :: CandidateShape(input, x, cand, col + 1)
  {
    forall cand | cand in Extensions(input, olds, subs)
      ensures CandidateShape(input, x, cand, col + 1)
    {
      ExtensionsMembers(input, olds, subs, cand);
      var oc := cand[..|cand| - 1];
      assert oc in olds && CandidateShape(input, x, oc, col);
      assert cand[col] in subs;
      ExtendedCandidate(input, x, col, cand);
    }
  }

  lemma ExtendedCandidate(input: seq<string>, x: string, col: nat, cand: string)
    requires WellFormed(input) && x in input && col < K(input)
    requires |cand| == col + 1 && MaySubstitute(ColumnBases(input, col), x[col], cand[col])
    requires CandidateShape(input, x, cand[..col], col)
    requires IsCode(cand) && PrefixValid(input, cand)
    ensures CandidateShape(input, x, cand, col + 1)
  {
    var oc := cand[..col];
    forall i | 0 <= i < col + 1
      ensures MaySubstitute(ColumnBases(input, i), x[i], cand[i])
    {
      if i < col {
        assert cand[i] == oc[i];
      }
    }
  }

  /**
   * One column of the candidate builder: at column 0 each row starts from the
   * substitutes of its first base; later, every row's candidates are extended
   * and pruned.
   */
  method ExtendRows(input: seq<string>, col: nat, pce: map<char, string>, cands: seq<seq<string>>)
    returns (next: seq<seq<string>>)
    requires WellFormed(input) && col < K(input) && ColumnEncoded(input, col, pce)
    requires RowsShaped(input, cands, col)
    ensures |next| == |input|
    ensures forall r | 0 <= r < |input| :: next[r] == NextRow(input, col, pce, input[r], cands[r])
    ensures RowsShaped(input, next, col + 1)
  {
    next := cands;
    for r := 0 to |input|
      invariant RowsExtended(input, col, pce, cands, next, r)
    {
      next := ExtendNextRow(input, col, pce, cands, next, r);
    }
  }

  /** ExtendRows' loop invariant after the first r rows. */
  ghost predicate RowsExtended(input: seq<string>, col: nat, pce: map<char, string>, cands: seq<seq<string>>,
                               next: seq<seq<string>>, r: nat)
  {
    && WellFormed(input) && col < K(input) && ColumnEncoded(input, col, pce) && RowsShaped(input, cands, col)
    && |next| == |input| && r <= |input|
    && (forall q | 0 <= q < r :: next[q] == NextRow(input, col, pce, input[q], cands[q]))
    && (forall q | r <= q < |input| :: next[q] == cands[q])
  }

  /** The body of ExtendRows' loop: row r, with the invariant carried over. */
  method ExtendNextRow(input: seq<string>, col: nat, pce: map<char, string>, cands: seq<seq<string>>,
                       next0: seq<seq<string>>, r: nat)
    returns (next: seq<seq<string>>)
    requires r < |input| && RowsExtended(input, col, pce, cands, next0, r)
    ensures RowsExtended(input, col, pce, cands, next, r + 1)
  {
    var row := ExtendKmerRow(input, col, pce, input[r], next0[r]);
    next := next0[r := row];
  }

  /**
   * What main's candidate loop makes of kmer x's row at column col: at column
   * 0 one single-symbol candidate per substitute of x's first base, later each
   * old candidate extended by each substitute of x's base and pruned.
   */
  ghost function NextRow(input: seq<string>, col: nat, pce: map<char, string>, x: string, olds: seq<string>)
    : (row: seq<string>)
    requires WellFormed(input) && col < K(input) && ColumnEncoded(input, col, pce)
    requires x in input && RowShape(input, x, olds, col)
    ensures RowShape(input, x, row, col + 1)
  {
    assert x[col] in ColumnBases(input, col);
    EncodedSymbols(input, col, pce, x[col]);
    if col == 0 then
      InitialRowShape(input, x, pce, Singletons(pce[x[0]]));
      Singletons(pce[x[0]])
    else
      ExtendedRowShape(input, x, col, pce[x[col]], olds);
      Extensions(input, olds, pce[x[col]])
  }

  /**
   * One kmer's row at one column: at column 0 one single-symbol candidate per
   * substitute of the first base, in order; later, each old candidate
   * extended by each substitute and pruned.
   */
  method ExtendKmerRow(input: seq<string>, col: nat, pce: map<char, string>, x: string, olds: seq<string>)
    returns (row: seq<string>)
    requires WellFormed(input) && col < K(input) && ColumnEncoded(input, col, pce)
    requires x in input && RowShape(input, x, olds, col)
    ensures row == NextRow(input, col, pce, x, olds)
    ensures RowShape(input, x, row, col + 1)
  {
    var ek := x[col];
    assert ek in ColumnBases(input, col);
    if col == 0 {
      row := olds;
      var subs := pce[ek];
      for m := 0 to |subs|
        invariant row == Singletons(subs[..m])
      {
        row := row + [[subs[m]]];
      }
      assert subs[..|subs|] == subs;
      InitialRowShape(input, x, pce, row);
    } else {
      EncodedSymbols(input, col, pce, ek);
      ExtendedRowShape(input, x, col, pce[ek], olds);
      row := ExtendRow(input, olds, pce[ek]);
    }
  }

  /** Every kmer's row has the shape RowShape describes after c columns. */
  ghost predicate RowsShaped(input: seq<string>, cands: seq<seq<string>>, c: nat)
    requires WellFormed(input) && c <= K(input)
  {
    |cands| == |input| && forall r | 0 <= r < |input| :: RowShape(input, input[r], cands[r], c)
  }

  /**
   * The candidate builder: all columns, one after the other. Each kmer's row
   * ends up holding, once each, exactly its full-length candidates whose every
   * expansion is a prefix of an input kmer, its own literal last.
   */
  method BuildCandidates(input: seq<string>, fwd: map<string, char>) returns (cands: seq<seq<string>>)
    requires WellFormed(input) && IsForwardTable(fwd)
    ensures RowsShaped(input, cands, K(input))
  {
    cands := seq(|input|, r => []);
    NoColumnsYet(input, cands);
    for col := 0 to K(input)
      invariant RowsShaped(input, cands, col)
    {
      var pce;
      cands, pce := ProcessColumn(input, col, fwd, cands);
    }
  }

  /** Before the first column every row's list is empty. */
  lemma NoColumnsYet(input: seq<string>, cands: seq<seq<string>>)
    requires WellFormed(input) && |cands| == |input| && forall r | 0 <= r < |cands| :: cands[r] == []
    ensures RowsShaped(input, cands, 0)
  {
  }

  /** One pass of main's column loop: encode the column, then extend every row with it. */
  method ProcessColumn(input: seq<string>, col: nat, fwd: map<string, char>, cands: seq<seq<string>>)
    returns (next: seq<seq<string>>, pce: map<char, string>)
    requires WellFormed(input) && col < K(input) && IsForwardTable(fwd)
    requires RowsShaped(input, cands, col)
    ensures ColumnEncoded(input, col, pce)
    ensures |next| == |input|
    ensures forall r | 0 <= r < |input| :: next[r] == NextRow(input, col, pce, input[r], cands[r])
    ensures RowsShaped(input, next, col + 1)
  {
    pce := ColumnEncodings(input, col, fwd);
    next := ExtendRows(input, col, pce, cands);
  }

  // ---------------------------------------------------------------------------
  // Conflict resolver

  /** What the resolver needs of the per-kmer candidate lists. */
  ghost predicate Resolvable(input: seq<string>, cands: seq<seq<string>>)
    requires WellFormed(input)
  {
    && |cands| == |input|
    && (forall r | 0 <= r < |input| :: K(input) >= 1 ==> input[r] in cands[r])
    && (forall r, i | 0 <= r < |input| && 0 <= i < |cands[r]| :: Resolves(input, input[r], cands[r][i]))
    && AllCodes(cands)
  }

  /** Every candidate of every row is a code. */
  ghost predicate AllCodes(cands: seq<seq<string>>) {
    forall r, i | 0 <= r < |cands| && 0 <= i < |cands[r]| :: IsCode(cands[r][i])
  }

  /** A full-length candidate c of kmer x: x is among its expansions, and all of them are input kmers. */
  ghost predicate Resolves(input: seq<string>, x: string, c: string)
    requires WellFormed(input)
  {
    1 <= |c| == K(input) && IsCode(c) && x in Expansion(c) && Expansion(c) <= Elems(input)
  }

  /**
   * Full-length candidates expand only to input kmers (every expansion is a
   * prefix of an input kmer of the same length), each row's kmer is in the
   * expansion of each of its candidates, and the literal kmer survives.
   */
  lemma FinalCandidates(input: seq<string>, cands: seq<seq<string>>)
    requires WellFormed(input)
    requires RowsShaped(input, cands, K(input))
    ensures Resolvable(input, cands)
  {
    var k := K(input);
    forall r, i | 0 <= r < |input| && 0 <= i < |cands[r]|
      ensures Resolves(input, input[r], cands[r][i])
    {
      assert cands[r][i] in cands[r];
      FinalCandidate(input, input[r], cands[r][i]);
    }
    forall r | 0 <= r < |input| && k >= 1
      ensures input[r] in cands[r]
    {
      assert input[r][..k] == input[r];
    }
  }

  /** One full-length candidate of kmer x resolves it. */
  lemma FinalCandidate(input: seq<string>, x: string, c: string)
    requires WellFormed(input) && x in input && 1 <= K(input) && CandidateShape(input, x, c, K(input))
    ensures Resolves(input, x, c)
  {
    InExpansion(c, x);
    forall e | e in Expansion(c)
      ensures e in Elems(input)
    {
      InExpansion(c, e);
      var y :| y in input && e <= y;
      assert e == y;
    }
  }

  /** Every candidate of every row. */
  ghost function AllCandidates(cands: seq<seq<string>>): (all: set<string>) {
    set r, i | 0 <= r < |cands| && 0 <= i < |cands[r]| :: cands[r][i]
  }

  /** The kmers that the chosen encodings stand for. */
  ghost function Covered(encodings: set<string>): (kmers: set<string>) {
    set e, x | e in encodings && IsCode(e) && x in Expansion(e) :: x
  }

  /** No kmer is claimed by two different chosen encodings. */
  ghost predicate PairwiseDisjoint(encodings: set<string>) {
    forall e1, e2 | e1 in encodings && e2 in encodings && e1 != e2 && IsCode(e1) && IsCode(e2) ::
      Expansion(e1) !! Expansion(e2)
  }

  /** The greedy rule for one candidate: it is chosen when none of its expansions is covered yet. */
  ghost function Accept(encodings: set<string>, c: string): (next: set<string>)
    requires IsCode(c)
  {
    if Expansion(c) !! Covered(encodings) then encodings + {c} else encodings
  }

  /** The greedy rule applied to the first n candidates of a row, in order. */
  ghost function Greedy(encodings: set<string>, row: seq<string>, n: nat): (next: set<string>)
    requires n <= |row| && forall i | 0 <= i < |row| :: IsCode(row[i])
  {
    if n == 0 then encodings else Accept(Greedy(encodings, row, n - 1), row[n - 1])
  }

  /**
   * What one row adds for k >= 2: with nothing chosen yet, its first candidate
   * primes the pump and ends the row; otherwise the greedy rule over the row.
   */
  ghost function RowChoice(encodings: set<string>, row: seq<string>): (next: set<string>)
    requires forall i | 0 <= i < |row| :: IsCode(row[i])
  {
    if encodings == {} then (if row == [] then {} else {row[0]})
    else Greedy(encodings, row, |row|)
  }

  /** trace[t + 1] is trace[t] after the greedy rule on row[t], for the first n candidates. */
  ghost predicate Traced(row: seq<string>, trace: seq<set<string>>, n: nat)
    requires n <= |row| && n < |trace| && forall i | 0 <= i < |row| :: IsCode(row[i])
  {
    forall t | 0 <= t < n :: trace[t + 1] == Accept(trace[t], row[t])
  }

  /** One more greedy step extends the trace. */
  lemma TracedNext(row: seq<string>, trace: seq<set<string>>, n: nat, next: set<string>)
    requires n < |row| && |trace| == n + 1 && forall i | 0 <= i < |row| :: IsCode(row[i])
    requires Traced(row, trace, n) && next == Accept(trace[n], row[n])
    ensures Traced(row, trace + [next], n + 1)
  {
  }

  /** A trace ends where the greedy rule over the same candidates ends. */
  lemma {:induction false} TracedGreedy(row: seq<string>, trace: seq<set<string>>, n: nat)
    requires n <= |row| && n < |trace| && forall i | 0 <= i < |row| :: IsCode(row[i])
    requires Traced(row, trace, n)
    ensures trace[n] == Greedy(trace[0], row, n)
  {
    if n > 0 {
      TracedGreedy(row, trace, n - 1);
    }
  }

  /** A candidate the resolver has dealt with: chosen, or one of its expansions is claimed already. */
  ghost predicate Settled(encodings: set<string>, c: string) {
    c in encodings || (IsCode(c) && !(Expansion(c) !! Covered(encodings)))
  }

  /** Covering is monotone in the encodings, so a settled candidate stays settled. */
  lemma SettledGrows(small: set<string>, large: set<string>, c: string)
    requires IsCode(c) && small <= large && Settled(small, c)
    ensures Settled(large, c)
  {
    if c !in small {
      var x :| x in Expansion(c) && x in Covered(small);
      StaysCovered(small, large, x);
    }
  }

  /** The greedy rule only adds encodings and settles every candidate it has passed over. */
  lemma {:induction false} GreedySettles(encodings: set<string>, row: seq<string>, n: nat)
    requires n <= |row| && forall i | 0 <= i < |row| :: IsCode(row[i])
    ensures encodings <= Greedy(encodings, row, n)
    ensures forall i | 0 <= i < n :: Settled(Greedy(encodings, row, n), row[i])
  {
    if n > 0 {
      GreedySettles(encodings, row, n - 1);
      var before := Greedy(encodings, row, n - 1);
      var after := Greedy(encodings, row, n);
      assert after == Accept(before, row[n - 1]);
      forall i | 0 <= i < n
        ensures Settled(after, row[i])
      {
        if i < n - 1 {
          SettledGrows(before, after, row[i]);
        }
      }
    }
  }

  /** The resolver's state: kmer_available is false exactly for the covered kmers. */
  ghost predicate ResolverState(input: seq<string>, cands: seq<seq<string>>,
                                available: map<string, bool>, encodings: set<string>)
    requires WellFormed(input)
  {
    && available.Keys == Elems(input)
    && (forall x | x in available :: available[x] <==> x !in Covered(encodings))
    && encodings <= AllCandidates(cands)
    && PairwiseDisjoint(encodings)
    && (K(input) <= 1 ==> encodings == {})
  }

  /** Initialise kmer_available: every input kmer is available. */
  method MarkAllAvailable(input: seq<string>) returns (available: map<string, bool>)
    ensures available.Keys == Elems(input)
    ensures forall x | x in available :: available[x]
  {
    available := map[];
    for r := 0 to |input|
      invariant available.Keys == Elems(input[..r])
      invariant forall x | x in available :: available[x]
    {
      assert input[..r + 1] == input[..r] + [input[r]];
      available := available[input[r] := true];
    }
    assert input[..|input|] == input;
  }

  /** The availability test: is every expansion still unclaimed? */
  method AllAvailable(available: map<string, bool>, eecs: set<string>) returns (passed: bool)
    requires eecs <= available.Keys
    ensures passed <==> forall x | x in eecs :: available[x]
  {
    passed := true;
    var rest := eecs;
    while rest != {}
      invariant rest <= eecs
      invariant passed <==> forall x | x in eecs - rest :: available[x]
      decreases rest
    {
      var eec :| eec in rest;
      if !available[eec] {
        passed := false;
      }
      rest := rest - {eec};
    }
  }

  /** Accepting an encoding: add it and mark each of its expansions unavailable. */
  method Claim(available: map<string, bool>, encodings: set<string>, ec: string, eecs: set<string>)
    returns (available': map<string, bool>, encodings': set<string>)
    ensures available'.Keys == available.Keys + eecs
    ensures forall x | x in available' :: available'[x] == (x !in eecs && available[x])
    ensures encodings' == if eecs == {} then encodings else encodings + {ec}
  {
    available', encodings' := available, encodings;
    var rest := eecs;
    while rest != {}
      invariant rest <= eecs
      invariant available'.Keys == available.Keys + (eecs - rest)
      invariant forall x | x in available' :: available'[x] == (x !in eecs - rest && available[x])
      invariant encodings' == if eecs - rest == {} then encodings else encodings + {ec}
      decreases rest
    {
      var eec :| eec in rest;
      encodings' := encodings' + {ec};
      available' := available'[eec := false];
      rest := rest - {eec};
    }
  }

  lemma PrefixStep<T>(s: seq<T>, j: nat)
    requires j < |s|
    ensures forall y :: y in s[..j + 1] <==> y in s[..j] || y == s[j]
  {
    assert s[..j + 1] == s[..j] + [s[j]];
  }

  /** Every candidate, of whichever row, has length k, is a code, and stands only for input kmers. */
  lemma CandidateFacts(input: seq<string>, cands: seq<seq<string>>, e: string)
    requires WellFormed(input) && Resolvable(input, cands) && e in AllCandidates(cands)
    ensures 1 <= |e| == K(input) && IsCode(e) && Expansion(e) <= Elems(input)
  {
    var r, i :| 0 <= r < |cands| && 0 <= i < |cands[r]| && e == cands[r][i];
  }

  lemma CoveredAdd(encodings: set<string>, ec: string)
    requires IsCode(ec)
    ensures Covered(encodings + {ec}) == Covered(encodings) + Expansion(ec)
  {
  }

  lemma InCovered(encodings: set<string>, e: string, x: string)
    requires e in encodings && IsCode(e) && x in Expansion(e)
    ensures x in Covered(encodings)
  {
  }

  lemma StaysCovered(small: set<string>, large: set<string>, x: string)
    requires small <= large && x in Covered(small)
    ensures x in Covered(large)
  {
  }

  /** An encoding whose expansions are all unclaimed is new and keeps the chosen encodings disjoint. */
  lemma DisjointAdd(encodings: set<string>, ec: string)
    requires IsCode(ec) && PairwiseDisjoint(encodings) && Expansion(ec) !! Covered(encodings)
    ensures ec !in encodings && PairwiseDisjoint(encodings + {ec})
  {
    ExpansionNonEmpty(ec);
    var x :| x in Expansion(ec);
    assert ec !in encodings by {
      if ec in encodings {
        InCovered(encodings, ec, x);
        assert false;
      }
    }
    forall e | e in encodings && IsCode(e)
      ensures Expansion(e) !! Expansion(ec)
    {
      forall y | y in Expansion(e)
        ensures y !in Expansion(ec)
      {
        assert y in Covered(encodings);
      }
    }
  }

  /** Accepting a candidate none of whose expansions is claimed keeps the resolver state. */
  lemma ClaimKeepsState(input: seq<string>, cands: seq<seq<string>>, available: map<string, bool>,
                        encodings: set<string>, ec: string, after: map<string, bool>)
    requires WellFormed(input) && ResolverState(input, cands, available, encodings) && K(input) >= 2
    requires ec in AllCandidates(cands) && IsCode(ec) && Expansion(ec) <= Elems(input)
    requires encodings == {} || forall x | x in Expansion(ec) :: available[x]
    requires after.Keys == available.Keys + Expansion(ec)
    requires forall x | x in after :: after[x] == (x !in Expansion(ec) && available[x])
    ensures ResolverState(input, cands, after, encodings + {ec})
  {
    var eecs := Expansion(ec);
    CoveredAdd(encodings, ec);
    assert eecs !! Covered(encodings) by {
      forall x | x in eecs
        ensures x !in Covered(encodings)
      {
        assert encodings != {} ==> available[x];
      }
    }
    DisjointAdd(encodings, ec);
  }

  /** The facts the resolver relies on about one candidate and its expansion. */
  ghost predicate Expanded(input: seq<string>, cands: seq<seq<string>>, ec: string, eecs: set<string>)
    requires WellFormed(input)
  {
    && ec in AllCandidates(cands) && 1 <= |ec| == K(input) && IsCode(ec) && Expansion(ec) <= Elems(input)
    && (|ec| == 1 ==> eecs == {})
    && (|ec| >= 2 ==> eecs == Expansion(ec))
  }

  /** What accepting a candidate does to the resolver state, whatever k is. */
  lemma ClaimOutcome(input: seq<string>, cands: seq<seq<string>>, avail0: map<string, bool>, enc0: set<string>,
                     ec: string, eecs: set<string>, available: map<string, bool>, encodings: set<string>)
    requires WellFormed(input) && ResolverState(input, cands, avail0, enc0) && Expanded(input, cands, ec, eecs)
    requires enc0 == {} || forall x | x in eecs :: avail0[x]
    requires available.Keys == avail0.Keys + eecs
    requires forall x | x in available :: available[x] == (x !in eecs && avail0[x])
    requires encodings == if eecs == {} then enc0 else enc0 + {ec}
    ensures ResolverState(input, cands, available, encodings)
    ensures enc0 <= encodings && Covered(enc0) <= Covered(encodings)
    ensures K(input) >= 2 ==> encodings == enc0 + {ec} && Covered(encodings) == Covered(enc0) + Expansion(ec)
  {
    if K(input) >= 2 {
      ExpansionNonEmpty(ec);
      ClaimKeepsState(input, cands, avail0, enc0, ec, available);
      CoveredAdd(enc0, ec);
    } else {
      assert available == avail0;
    }
  }

  /** Priming: with nothing chosen yet, the candidate is accepted outright. */
  method ClaimFirst(input: seq<string>, cands: seq<seq<string>>, avail0: map<string, bool>,
                    enc0: set<string>, ec: string, eecs: set<string>)
    returns (available: map<string, bool>, encodings: set<string>)
    requires WellFormed(input) && enc0 == {}
    requires ResolverState(input, cands, avail0, enc0) && Expanded(input, cands, ec, eecs)
    ensures ResolverState(input, cands, available, encodings)
    ensures K(input) >= 2 ==> encodings == {ec}
  {
    available, encodings := Claim(avail0, enc0, ec, eecs);
    ClaimOutcome(input, cands, avail0, enc0, ec, eecs, available, encodings);
  }

  /** After priming: the candidate is accepted only if none of its expansions is claimed yet. */
  method ClaimIfAvailable(input: seq<string>, cands: seq<seq<string>>, avail0: map<string, bool>,
                          enc0: set<string>, ec: string, eecs: set<string>)
    returns (available: map<string, bool>, encodings: set<string>)
    requires WellFormed(input) && ResolverState(input, cands, avail0, enc0) && Expanded(input, cands, ec, eecs)
    ensures ResolverState(input, cands, available, encodings)
    ensures enc0 <= encodings && Covered(enc0) <= Covered(encodings)
    ensures K(input) >= 2 && IsKmer(ec) ==> ec in Covered(encodings)
    ensures K(input) >= 2 ==> encodings == if forall x | x in Expansion(ec) :: avail0[x] then enc0 + {ec} else enc0
  {
    var passed := AllAvailable(avail0, eecs);
    if passed {
      available, encodings := Claim(avail0, enc0, ec, eecs);
      ClaimOutcome(input, cands, avail0, enc0, ec, eecs, available, encodings);
    } else {
      available, encodings := avail0, enc0;
    }
    if K(input) >= 2 && IsKmer(ec) {
      LiteralExpansion(ec);
    }
  }

  /**
   * One candidate of the resolver: expand it; with nothing chosen yet accept
   * it outright (primed), otherwise accept it only if all its expansions are
   * still available.
   */
  method ConsiderCandidate(input: seq<string>, cands: seq<seq<string>>, r: nat, j: nat,
                           avail0: map<string, bool>, enc0: set<string>)
    returns (available: map<string, bool>, encodings: set<string>, primed: bool)
    requires WellFormed(input) && |cands| == |input| && r < |input| && j < |cands[r]|
    requires Resolves(input, input[r], cands[r][j])
    requires ResolverState(input, cands, avail0, enc0)
    ensures ResolverState(input, cands, available, encodings)
    ensures enc0 <= encodings
    ensures primed <==> enc0 == {}
    ensures K(input) >= 2 && primed ==> encodings == {cands[r][j]}
    ensures K(input) >= 2 && (primed || cands[r][j] == input[r]) ==> input[r] in Covered(encodings)
    ensures K(input) >= 2 ==> encodings == Accept(enc0, cands[r][j])
  {
    var ec := cands[r][j];
    assert ec in AllCandidates(cands);
    var eecs := ExpandEncodedCandidate(ec);
    primed := |enc0| == 0;
    if primed {
      available, encodings := ClaimFirst(input, cands, avail0, enc0, ec, eecs);
      if K(input) >= 2 {
        InCovered(encodings, ec, input[r]);
        assert Covered(enc0) == {};
      }
    } else {
      available, encodings := ClaimIfAvailable(input, cands, avail0, enc0, ec, eecs);
      if K(input) >= 2 {
        AvailableIffUncovered(input, cands, avail0, enc0, ec);
      }
    }
  }

  /** kmer_available says exactly which of a candidate's expansions are still unclaimed. */
  lemma AvailableIffUncovered(input: seq<string>, cands: seq<seq<string>>, available: map<string, bool>,
                              encodings: set<string>, c: string)
    requires WellFormed(input) && ResolverState(input, cands, available, encodings)
    requires IsCode(c) && Expansion(c) <= Elems(input)
    ensures (forall x | x in Expansion(c) :: available[x]) <==> Expansion(c) !! Covered(encodings)
  {
  }

  /**
   * One kmer of the resolver: its candidates in order; priming ends the row,
   * otherwise every candidate is considered.
   */
  method ResolveRow(input: seq<string>, cands: seq<seq<string>>, r: nat,
                    avail0: map<string, bool>, enc0: set<string>)
    returns (available: map<string, bool>, encodings: set<string>)
    requires WellFormed(input) && |cands| == |input| && r < |input|
    requires K(input) >= 1 ==> input[r] in cands[r]
    requires forall i | 0 <= i < |cands[r]| :: Resolves(input, input[r], cands[r][i])
    requires forall i | 0 <= i < |cands[r]| :: IsCode(cands[r][i])
    requires ResolverState(input, cands, avail0, enc0)
    requires K(input) >= 2 && r == 0 ==> enc0 == {}
    ensures ResolverState(input, cands, available, encodings)
    ensures enc0 <= encodings
    ensures K(input) >= 2 ==> input[r] in Covered(encodings)
    ensures K(input) >= 2 && r == 0 ==> cands[0][0] in encodings
    ensures K(input) >= 2 ==> encodings == RowChoice(enc0, cands[r])
  {
    // the position of the kmer's own literal among its candidates
    ghost var lit := 0;
    if K(input) >= 1 {
      lit :| 0 <= lit < |cands[r]| && cands[r][lit] == input[r];
    }
    available, encodings := avail0, enc0;
    var j := 0;
    ghost var trace := [enc0];
    while j < |cands[r]|
      invariant RowProgress(input, cands, r, lit, enc0, available, encodings, trace, j)
    {
      var primed;
      available, encodings, primed, trace :=
        ResolveNextCandidate(input, cands, r, lit, enc0, j, available, encodings, trace);
      if primed {
        break;
      }
      j := j + 1;
    }
    if K(input) >= 2 && enc0 != {} {
      TracedGreedy(cands[r], trace, |cands[r]|);
    }
  }

  /** ResolveRow's loop invariant after the first j candidates of row r. */
  ghost predicate RowProgress(input: seq<string>, cands: seq<seq<string>>, r: nat, lit: nat, enc0: set<string>,
                              available: map<string, bool>, encodings: set<string>,
                              trace: seq<set<string>>, j: nat)
  {
    && WellFormed(input) && |cands| == |input| && r < |input|
    && (forall i | 0 <= i < |cands[r]| :: Resolves(input, input[r], cands[r][i]))
    && (forall i | 0 <= i < |cands[r]| :: IsCode(cands[r][i]))
    && (K(input) >= 1 ==> lit < |cands[r]| && cands[r][lit] == input[r])
    && j <= |cands[r]|
    && ResolverState(input, cands, available, encodings)
    && enc0 <= encodings
    && (K(input) >= 2 && lit < j ==> input[r] in Covered(encodings))
    && (K(input) >= 2 && enc0 == {} ==> j == 0 && encodings == {})
    && |trace| == j + 1 && trace[0] == enc0 && trace[j] == encodings
    && (K(input) >= 2 && enc0 != {} ==> Traced(cands[r], trace, j))
  }

  /**
   * The body of ResolveRow's loop: candidate j of row r. Priming ends the row
   * with that candidate alone; otherwise the invariant moves on by one.
   */
  method ResolveNextCandidate(input: seq<string>, cands: seq<seq<string>>, r: nat, ghost lit: nat, enc0: set<string>,
                              j: nat, avail0: map<string, bool>, encs0: set<string>, ghost trace0: seq<set<string>>)
    returns (available: map<string, bool>, encodings: set<string>, primed: bool, ghost trace: seq<set<string>>)
    requires RowProgress(input, cands, r, lit, enc0, avail0, encs0, trace0, j) && j < |cands[r]|
    ensures primed ==> enc0 == {} && enc0 <= encodings && ResolverState(input, cands, available, encodings)
    ensures K(input) >= 2 && primed ==> encodings == {cands[r][0]} && input[r] in Covered(encodings)
    ensures !primed ==> RowProgress(input, cands, r, lit, enc0, available, encodings, trace, j + 1)
  {
    available, encodings, primed := ConsiderCandidate(input, cands, r, j, avail0, encs0);
    trace := trace0 + [encodings];
    if !primed {
      if K(input) >= 2 && lit < j {
        StaysCovered(encs0, encodings, input[r]);
      }
      if K(input) >= 2 && enc0 != {} {
        TracedNext(cands[r], trace0, j, encodings);
      }
      assert K(input) >= 2 && lit == j ==> cands[r][j] == input[r];
    }
  }

  /**
   * The greedy conflict resolver, kmer by kmer in input order. hist[q] is the
   * set chosen before row q; for k >= 2 each row adds its RowChoice, so the
   * result is ResolveRows(cands, |cands|). The chosen encodings stand for
   * every input kmer and for nothing else, no kmer is claimed twice, each kmer
   * keeps at most one of its candidates, and the first candidate of the first
   * kmer is always chosen; for k <= 1 nothing is.
   */
  method ResolveConflicts(input: seq<string>, cands: seq<seq<string>>)
    returns (encodings: set<string>, ghost hist: seq<set<string>>)
    requires WellFormed(input) && Resolvable(input, cands)
    ensures encodings <= AllCandidates(cands)
    ensures forall e | e in encodings :: |e| == K(input) && IsCode(e) && Expansion(e) <= Elems(input)
    ensures PairwiseDisjoint(encodings)
    ensures K(input) >= 2 ==> Covered(encodings) == Elems(input)
    ensures K(input) >= 2 ==> cands[0][0] in encodings
    ensures K(input) <= 1 ==> encodings == {}
    ensures forall r | 0 <= r < |cands| :: AtMostOne(ChosenOf(cands[r], encodings))
    ensures |hist| == |input| + 1 && hist[0] == {} && hist[|input|] == encodings
    ensures K(input) >= 2 ==> RowsTraced(cands, hist, |input|)
    ensures K(input) >= 2 ==> encodings == ResolveRows(cands, |cands|)
  {
    var available;
    available, encodings, hist := StartResolving(input, cands);
    for r := 0 to |input|
      invariant Progress(input, cands, available, encodings, r) && History(input, cands, hist, encodings, r)
    {
      available, encodings, hist := ResolveNextRow(input, cands, r, available, encodings, hist);
    }
    Resolved(input, cands, available, encodings);
    ResolvedCover(input, cands, available, encodings);
    ResolvedTrace(input, cands, hist, encodings);
  }

  /**
   * hist[t + 1] is hist[t] after row t's choice, for the first n rows: the
   * greedy resolver's run over the rows, one set per row boundary.
   */
  ghost predicate RowsTraced(cands: seq<seq<string>>, hist: seq<set<string>>, n: nat) {
    && n <= |cands| && n < |hist| && AllCodes(cands)
    && forall t | 0 <= t < n :: hist[t + 1] == RowChoice(hist[t], cands[t])
  }

  /** The resolver's choice after the first n rows, starting from nothing chosen. */
  ghost function ResolveRows(cands: seq<seq<string>>, n: nat): (chosen: set<string>)
    requires n <= |cands| && AllCodes(cands)
  {
    if n == 0 then {} else RowChoice(ResolveRows(cands, n - 1), cands[n - 1])
  }

  /** A row trace that starts from nothing ends where ResolveRows ends. */
  lemma {:induction false} TracedRows(cands: seq<seq<string>>, hist: seq<set<string>>, n: nat)
    requires RowsTraced(cands, hist, n) && hist[0] == {}
    ensures hist[n] == ResolveRows(cands, n)
  {
    if n > 0 {
      assert RowsTraced(cands, hist, n - 1);
      TracedRows(cands, hist, n - 1);
    }
  }

  /** The trace part of the resolver's loop invariant after the first r rows. */
  ghost predicate History(input: seq<string>, cands: seq<seq<string>>, hist: seq<set<string>>,
                          encodings: set<string>, r: nat)
  {
    && |hist| == r + 1 && hist[0] == {} && hist[r] == encodings
    && (WellFormed(input) && K(input) >= 2 ==> RowsTraced(cands, hist, r))
  }

  /** One more row's choice extends the row trace. */
  ghost method TraceExtend(input: seq<string>, cands: seq<seq<string>>, hist0: seq<set<string>>,
                           r: nat, encodings: set<string>)
    returns (hist: seq<set<string>>)
    requires WellFormed(input) && r < |cands| && AllCodes(cands) && |hist0| == r + 1
    requires History(input, cands, hist0, hist0[r], r)
    requires K(input) >= 2 ==> encodings == RowChoice(hist0[r], cands[r])
    ensures hist == hist0 + [encodings]
    ensures History(input, cands, hist, encodings, r + 1)
  {
    hist := hist0 + [encodings];
    if K(input) >= 2 {
      forall t | 0 <= t < r + 1
        ensures hist[t + 1] == RowChoice(hist[t], cands[t])
      {
        if t < r {
          assert hist[t + 1] == hist0[t + 1] && hist[t] == hist0[t];
        }
      }
    }
  }

  /** Before the first row: every kmer available, nothing chosen. */
  method StartResolving(input: seq<string>, cands: seq<seq<string>>)
    returns (available: map<string, bool>, encodings: set<string>, ghost hist: seq<set<string>>)
    requires WellFormed(input) && Resolvable(input, cands)
    ensures Progress(input, cands, available, encodings, 0) && History(input, cands, hist, encodings, 0)
  {
    available := MarkAllAvailable(input);
    encodings := {};
    hist := [{}];
  }

  /** The resolver's loop invariant after the first r rows. */
  ghost predicate Progress(input: seq<string>, cands: seq<seq<string>>, available: map<string, bool>,
                           encodings: set<string>, r: nat)
  {
    && WellFormed(input) && |cands| == |input| && AllCodes(cands)
    && r <= |input|
    && ResolverState(input, cands, available, encodings)
    && (K(input) >= 2 ==> forall q | 0 <= q < r :: input[q] in Covered(encodings))
    && (K(input) >= 2 && r == 0 ==> encodings == {})
    && (K(input) >= 2 && r >= 1 ==> |cands[0]| > 0 && cands[0][0] in encodings)
  }

  /** The body of the resolver's row loop: row r, with the invariant carried over. */
  method ResolveNextRow(input: seq<string>, cands: seq<seq<string>>, r: nat, avail0: map<string, bool>,
                        enc0: set<string>, ghost hist0: seq<set<string>>)
    returns (available: map<string, bool>, encodings: set<string>, ghost hist: seq<set<string>>)
    requires WellFormed(input) && Resolvable(input, cands) && r < |input|
    requires Progress(input, cands, avail0, enc0, r) && History(input, cands, hist0, enc0, r)
    ensures Progress(input, cands, available, encodings, r + 1) && History(input, cands, hist, encodings, r + 1)
    ensures K(input) >= 2 ==> encodings == RowChoice(enc0, cands[r])
    ensures hist == hist0 + [encodings]
  {
    RowFacts(input, cands, r);
    available, encodings := ResolveRow(input, cands, r, avail0, enc0);
    if K(input) >= 2 {
      CoverPrefix(input, r, enc0, encodings);
    }
    hist := TraceExtend(input, cands, hist0, r, encodings);
  }

  /** What the resolver's invariant gives about the chosen encodings once every row is done. */
  lemma Resolved(input: seq<string>, cands: seq<seq<string>>, available: map<string, bool>,
                 encodings: set<string>)
    requires WellFormed(input) && Resolvable(input, cands)
    requires Progress(input, cands, available, encodings, |input|)
    ensures encodings <= AllCandidates(cands)
    ensures forall e | e in encodings :: |e| == K(input) && IsCode(e) && Expansion(e) <= Elems(input)
    ensures PairwiseDisjoint(encodings)
    ensures forall r | 0 <= r < |cands| :: AtMostOne(ChosenOf(cands[r], encodings))
  {
    ChosenFacts(input, cands, encodings);
    OnePerRow(input, cands, encodings);
  }

  /** What the resolver's invariant gives about coverage once every row is done. */
  lemma ResolvedCover(input: seq<string>, cands: seq<seq<string>>, available: map<string, bool>,
                      encodings: set<string>)
    requires WellFormed(input) && Resolvable(input, cands)
    requires Progress(input, cands, available, encodings, |input|)
    ensures K(input) >= 2 ==> Covered(encodings) == Elems(input)
    ensures K(input) >= 2 ==> cands[0][0] in encodings
    ensures K(input) <= 1 ==> encodings == {}
  {
    if K(input) >= 2 {
      ChosenFacts(input, cands, encodings);
      AllCovered(input, encodings);
    }
  }

  /** The row trace after the last row: the result is the greedy run over all rows. */
  lemma ResolvedTrace(input: seq<string>, cands: seq<seq<string>>, hist: seq<set<string>>,
                      encodings: set<string>)
    requires WellFormed(input) && |cands| == |input| && AllCodes(cands)
    requires History(input, cands, hist, encodings, |input|)
    ensures |hist| == |input| + 1 && hist[0] == {} && hist[|input|] == encodings
    ensures K(input) >= 2 ==> RowsTraced(cands, hist, |input|)
    ensures K(input) >= 2 ==> encodings == ResolveRows(cands, |cands|)
  {
    if K(input) >= 2 {
      TracedRows(cands, hist, |input|);
    }
  }

  /** The facts about one row that the resolver's row loop relies on. */
  lemma RowFacts(input: seq<string>, cands: seq<seq<string>>, r: nat)
    requires WellFormed(input) && Resolvable(input, cands) && r < |input|
    ensures |cands| == |input|
    ensures K(input) >= 1 ==> input[r] in cands[r]
    ensures forall i | 0 <= i < |cands[r]| :: Resolves(input, input[r], cands[r][i])
    ensures forall i | 0 <= i < |cands[r]| :: IsCode(cands[r][i])
  {
  }

  /** Coverage of the first r kmers survives a row that adds encodings and covers kmer r. */
  lemma CoverPrefix(input: seq<string>, r: nat, small: set<string>, large: set<string>)
    requires r < |input| && small <= large && input[r] in Covered(large)
    requires forall q | 0 <= q < r :: input[q] in Covered(small)
    ensures forall q | 0 <= q < r + 1 :: input[q] in Covered(large)
  {
    forall q | 0 <= q < r + 1
      ensures input[q] in Covered(large)
    {
      if q < r {
        StaysCovered(small, large, input[q]);
      }
    }
  }

  /** Every chosen encoding has length k, is a code and stands only for input kmers. */
  lemma ChosenFacts(input: seq<string>, cands: seq<seq<string>>, encodings: set<string>)
    requires WellFormed(input) && Resolvable(input, cands) && encodings <= AllCandidates(cands)
    ensures forall e | e in encodings :: |e| == K(input) && IsCode(e) && Expansion(e) <= Elems(input)
  {
    forall e | e in encodings
      ensures |e| == K(input) && IsCode(e) && Expansion(e) <= Elems(input)
    {
      CandidateFacts(input, cands, e);
    }
  }

  /** Encodings that stand only for input kmers and cover each of them cover exactly the input. */
  lemma AllCovered(input: seq<string>, encodings: set<string>)
    requires forall e | e in encodings :: IsCode(e) && Expansion(e) <= Elems(input)
    requires forall q | 0 <= q < |input| :: input[q] in Covered(encodings)
    ensures Covered(encodings) == Elems(input)
  {
    forall x | x in Elems(input)
      ensures x in Covered(encodings)
    {
      var q :| 0 <= q < |input| && input[q] == x;
    }
  }

  /**
   * Two chosen encodings that are candidates of the same kmer both stand for
   * that kmer, so disjointness leaves room for only one of them.
   */
  lemma OnePerRow(input: seq<string>, cands: seq<seq<string>>, encodings: set<string>)
    requires WellFormed(input) && Resolvable(input, cands) && PairwiseDisjoint(encodings)
    ensures forall r | 0 <= r < |cands| :: AtMostOne(ChosenOf(cands[r], encodings))
  {
    forall r | 0 <= r < |cands|
      ensures AtMostOne(ChosenOf(cands[r], encodings))
    {
      forall c1, c2 | c1 in ChosenOf(cands[r], encodings) && c2 in ChosenOf(cands[r], encodings)
        ensures c1 == c2
      {
        var i1 :| 0 <= i1 < |cands[r]| && cands[r][i1] == c1;
        var i2 :| 0 <= i2 < |cands[r]| && cands[r][i2] == c2;
        assert Resolves(input, input[r], c1) && Resolves(input, input[r], c2);
      }
    }
  }

  /** The candidates of one kmer that are among the chosen encodings. */
  ghost function ChosenOf(row: seq<string>, encodings: set<string>): (s: set<string>)
  {
    set c | c in row && c in encodings
  }

  /** A set with no two distinct members. */
  ghost predicate AtMostOne(s: set<string>)
  {
    forall a, b | a in s && b in s :: a == b
  }

  // ---------------------------------------------------------------------------
  // main

  /**
   * main without its report: build the tables, the candidates and the final
   * encodings. Every encoding stands only for input kmers, no kmer is claimed
   * twice, and for k >= 2 together they stand for every input kmer; hist is
   * the resolver's run, row by row, under the greedy rule.
   */
  method Collapse(input: seq<string>)
    returns (encodings: set<string>, ghost cands: seq<seq<string>>, ghost hist: seq<set<string>>)
    requires WellFormed(input)
    ensures RowsShaped(input, cands, K(input))
    ensures encodings <= AllCandidates(cands)
    ensures forall e | e in encodings :: |e| == K(input) && IsCode(e) && Expansion(e) <= Elems(input)
    ensures PairwiseDisjoint(encodings)
    ensures K(input) >= 2 ==> Covered(encodings) == Elems(input)
    ensures K(input) >= 2 ==> cands[0][0] in encodings
    ensures K(input) <= 1 ==> encodings == {}
    ensures forall r | 0 <= r < |cands| :: AtMostOne(ChosenOf(cands[r], encodings))
    ensures |hist| == |input| + 1 && hist[0] == {} && hist[|input|] == encodings
    ensures K(input) >= 2 ==> RowsTraced(cands, hist, |input|)
    ensures K(input) >= 2 ==> encodings == ResolveRows(cands, |cands|)
  {
    var fwd := ForwardSubstitutions();
    assert IsForwardTable(fwd);
    var built := BuildCandidates(input, fwd);
    cands := built;
    FinalCandidates(input, built);
    encodings, hist := ResolveConflicts(input, built);
  }
}
