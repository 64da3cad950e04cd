/**
 * The IUPAC (NC-IUB 1984) substitution tables of kmer-collapse: the reverse
 * table from each of the 15 symbols to its member bases, and the forward
 * table from every ordering of a multi-base subset to its degenerate symbol.
 */
module Substitutions {

  /** The unambiguous DNA alphabet. */
  const Bases: set<char> := {'A', 'C', 'G', 'T'}

  /** reverse_substitutions: every symbol, plain or degenerate, to its member bases in table order. */
  const Reverse: map<char, string> := map[
    'A' := "A", 'T' := "T", 'C' := "C", 'G' := "G",
    'R' := "AG", 'Y' := "CT", 'S' := "GC", 'W' := "AT", 'K' := "GT", 'M' := "AC",
    'B' := "CGT", 'D' := "AGT", 'H' := "ACT", 'V' := "ACG", 'N' := "ACGT"]

  /** The eleven canonical multi-base keys and their symbols, in the order the table lists them. */
  const RawForward: seq<(string, char)> := [
    ("AG", 'R'), ("CT", 'Y'), ("GC", 'S'), ("AT", 'W'), ("GT", 'K'), ("AC", 'M'),
    ("CGT", 'B'), ("AGT", 'D'), ("ACT", 'H'), ("ACG", 'V'), ("ACGT", 'N')]

  function Elems<T>(s: seq<T>): (elems: set<T>) {
    set x | x in s
  }

  predicate NoDup<T(==)>(s: seq<T>) {
    forall i, j | 0 <= i < j < |s| :: s[i] != s[j]
  }

  /** The set of bases a symbol stands for. */
  function Members(c: char): (m: set<char>)
    requires c in Reverse
  {
    Elems(Reverse[c])
  }

  /** A key the forward table accepts: two or more distinct bases, in any order. */
  predicate IsMultiBaseKey(p: string) {
    NoDup(p) && 2 <= |p| && Elems(p) <= Bases
  }

  /** The symbol standing for a set of bases (the inverse of Members). */
  function SymbolOf(m: set<char>): (s: char) {
    var a, c, g, t := 'A' in m, 'C' in m, 'G' in m, 'T' in m;
    if a && c && g && t then 'N'
    else if c && g && t then 'B'
    else if a && g && t then 'D'
    else if a && c && t then 'H'
    else if a && c && g then 'V'
    else if a && g then 'R'
    else if c && t then 'Y'
    else if c && g then 'S'
    else if a && t then 'W'
    else if g && t then 'K'
    else if a && c then 'M'
    else if a then 'A'
    else if c then 'C'
    else if g then 'G'
    else 'T'
  }

  /** Every symbol is recovered from its member set, so distinct symbols have distinct member sets. */
  lemma SymbolOfMembers(s: char)
    requires s in Reverse
    ensures SymbolOf(Members(s)) == s
  {
    assert 'A' in Reverse['A'] && 'C' in Reverse['C'] && 'G' in Reverse['G'] && 'T' in Reverse['T'];
  }

  /** Every non-empty set of bases is the member set of exactly the symbol SymbolOf gives. */
  lemma MembersOfSymbol(m: set<char>)
    requires m != {} && m <= Bases
    ensures SymbolOf(m) in Reverse && Members(SymbolOf(m)) == m
  {
    var s := SymbolOf(m);
    forall x | x in Bases
      ensures x in Members(s) <==> x in m
    {
      assert Reverse[s][0] in Members(s);
    }
  }

  /** The reverse table is a bijection between the 15 symbols and the non-empty subsets of the bases. */
  lemma SymbolBijection()
    ensures forall s | s in Reverse :: Members(s) != {} && Members(s) <= Bases
    ensures forall s1, s2 | s1 in Reverse && s2 in Reverse && Members(s1) == Members(s2) :: s1 == s2
    ensures forall m | m != {} && m <= Bases :: exists s :: s in Reverse && Members(s) == m
  {
    forall s | s in Reverse
      ensures Members(s) != {} && Members(s) <= Bases
    {
      assert Reverse[s][0] in Members(s);
    }
    forall s1, s2 | s1 in Reverse && s2 in Reverse && Members(s1) == Members(s2)
      ensures s1 == s2
    {
      SymbolOfMembers(s1);
      SymbolOfMembers(s2);
    }
    forall m | m != {} && m <= Bases
      ensures exists s :: s in Reverse && Members(s) == m
    {
      MembersOfSymbol(m);
    }
  }

  /** A plain base stands for itself alone. */
  lemma PlainBase(b: char)
    requires b in Bases
    ensures b in Reverse && Reverse[b] == [b] && Members(b) == {b}
  {
  }

  /** Each canonical key lists exactly the members of its symbol, without repetition. */
  lemma RawForwardAgrees(i: nat)
    requires i < |RawForward|
    ensures RawForward[i].1 in Reverse && RawForward[i].1 !in Bases
    ensures RawForward[i].0 == Reverse[RawForward[i].1]
    ensures IsMultiBaseKey(RawForward[i].0)
  {
  }

  /** Every degenerate symbol appears in the canonical list. */
  lemma DegenerateIsRaw(s: char)
    requires s in Reverse && s !in Bases
    ensures exists i :: 0 <= i < |RawForward| && RawForward[i].1 == s
  {
    if s == 'R' { assert RawForward[0].1 == s; }
    else if s == 'Y' { assert RawForward[1].1 == s; }
    else if s == 'S' { assert RawForward[2].1 == s; }
    else if s == 'W' { assert RawForward[3].1 == s; }
    else if s == 'K' { assert RawForward[4].1 == s; }
    else if s == 'M' { assert RawForward[5].1 == s; }
    else if s == 'B' { assert RawForward[6].1 == s; }
    else if s == 'D' { assert RawForward[7].1 == s; }
    else if s == 'H' { assert RawForward[8].1 == s; }
    else if s == 'V' { assert RawForward[9].1 == s; }
    else { assert RawForward[10].1 == s; }
  }

  // ---------------------------------------------------------------------------
  // Permutations (itertools.permutations on a key's letters)

  function Drop<T>(s: seq<T>, i: nat): (r: seq<T>)
    requires i < |s|
  {
    s[..i] + s[i + 1..]
  }

  /** All orderings of the elements of s. */
  function Permutations<T(==)>(s: seq<T>): (perms: set<seq<T>>)
    decreases |s|
  {
    if s == [] then {[]}
    else set i, p | 0 <= i < |s| && p in Permutations(Drop(s, i)) :: [s[i]] + p
  }

  /** The identity ordering is among the orderings: every raw key is itself a forward key. */
  lemma {:induction false} OwnOrdering<T>(s: seq<T>)
    ensures s in Permutations(s)
    decreases |s|
  {
    if s != [] {
      assert Drop(s, 0) == s[1..];
      OwnOrdering(s[1..]);
      assert s == [s[0]] + Drop(s, 0);
    }
  }

  lemma DropFacts<T>(s: seq<T>, i: nat)
    requires i < |s| && NoDup(s)
    ensures NoDup(Drop(s, i)) && |Drop(s, i)| == |s| - 1
    ensures Elems(Drop(s, i)) == Elems(s) - {s[i]}
  {
    var d := Drop(s, i);
    assert forall j | 0 <= j < |d| :: d[j] == if j < i then s[j] else s[j + 1];
    forall x | x in Elems(s) - {s[i]}
      ensures x in d
    {
      var j :| 0 <= j < |s| && s[j] == x;
      if j < i { assert d[j] == x; } else { assert d[j - 1] == x; }
    }
  }

  lemma ConsFacts<T>(x: T, q: seq<T>)
    ensures Elems([x] + q) == {x} + Elems(q)
    ensures NoDup([x] + q) <==> x !in q && NoDup(q)
  {
    var p := [x] + q;
    assert forall j | 0 <= j < |q| :: p[j + 1] == q[j];
    if NoDup(p) {
      forall i, j | 0 <= i < j < |q|
        ensures q[i] != q[j]
      {
        assert p[i + 1] != p[j + 1];
      }
      forall j | 0 <= j < |q|
        ensures q[j] != x
      {
        assert p[0] != p[j + 1];
      }
    }
  }

  /** For a sequence without repetitions, the permutations are the repetition-free reorderings. */
  lemma {:induction false} PermutationsSpec<T>(s: seq<T>, p: seq<T>)
    requires NoDup(s)
    ensures p in Permutations(s) <==> NoDup(p) && |p| == |s| && Elems(p) == Elems(s)
    decreases |s|
  {
    if p in Permutations(s) {
      PermutationSound(s, p);
    }
    if NoDup(p) && |p| == |s| && Elems(p) == Elems(s) {
      PermutationComplete(s, p);
    }
  }

  lemma {:induction false} PermutationSound<T>(s: seq<T>, p: seq<T>)
    requires NoDup(s) && p in Permutations(s)
    ensures NoDup(p) && |p| == |s| && Elems(p) == Elems(s)
    decreases |s|
  {
    if s != [] {
      var i, q :| 0 <= i < |s| && q in Permutations(Drop(s, i)) && p == [s[i]] + q;
      DropFacts(s, i);
      PermutationSound(Drop(s, i), q);
      ConsFacts(s[i], q);
    }
  }

  lemma {:induction false} PermutationComplete<T>(s: seq<T>, p: seq<T>)
    requires NoDup(s) && NoDup(p) && |p| == |s| && Elems(p) == Elems(s)
    ensures p in Permutations(s)
    decreases |s|
  {
    if s != [] {
      assert p[0] in Elems(s);
      var i :| 0 <= i < |s| && s[i] == p[0];
      var q := p[1..];
      assert p == [s[i]] + q;
      ConsFacts(p[0], q);
      DropFacts(s, i);
      PermutationComplete(Drop(s, i), q);
    }
  }

  lemma {:induction false} NoDupCard<T>(s: seq<T>)
    requires NoDup(s)
    ensures |Elems(s)| == |s|
  {
    if s != [] {
      var q := s[1..];
      assert s == [s[0]] + q;
      ConsFacts(s[0], q);
      NoDupCard(q);
    }
  }

  // ---------------------------------------------------------------------------
  // The forward table

  /** The entries one canonical key contributes: each of its orderings maps to its symbol. */
  function PermutedEntries(key: string, v: char): (entries: map<string, char>) {
    map p | p in Permutations(key) :: v
  }

  /** The table after inserting the first n keys of raw, later keys overriding earlier ones. */
  function ForwardFrom(raw: seq<(string, char)>, n: nat): (fwd: map<string, char>)
    requires n <= |raw|
  {
    if n == 0 then map[] else ForwardFrom(raw, n - 1) + PermutedEntries(raw[n - 1].0, raw[n - 1].1)
  }

  /** forward_subs, the table forward_substitutions builds. */
  function ForwardTable(): (fwd: map<string, char>) {
    ForwardFrom(RawForward, |RawForward|)
  }

  /** A key is an ordering of canonical key i exactly when it has the same bases without repetition. */
  lemma PermutationOfRaw(i: nat, p: string)
    requires i < |RawForward|
    ensures p in Permutations(RawForward[i].0) <==> NoDup(p) && Elems(p) == Members(RawForward[i].1)
  {
    RawForwardAgrees(i);
    var key := RawForward[i].0;
    PermutationsSpec(key, p);
    if NoDup(p) && Elems(p) == Elems(key) {
      NoDupCard(p);
      NoDupCard(key);
    }
  }

  /** The keys of the table are the orderings of the keys inserted so far. */
  lemma {:induction false} ForwardFromKeys(raw: seq<(string, char)>, n: nat, p: string)
    requires n <= |raw|
    ensures p in ForwardFrom(raw, n) <==> exists i :: 0 <= i < n && p in Permutations(raw[i].0)
  {
    if n > 0 {
      ForwardFromKeys(raw, n - 1, p);
    }
  }

  /** The position of a degenerate symbol in the canonical list. */
  function RawIndex(s: char): (i: nat) {
    match s
    case 'R' => 0 case 'Y' => 1 case 'S' => 2 case 'W' => 3 case 'K' => 4 case 'M' => 5
    case 'B' => 6 case 'D' => 7 case 'H' => 8 case 'V' => 9 case _ => 10
  }

  lemma RawIndexOf(i: nat)
    requires i < |RawForward|
    ensures RawIndex(RawForward[i].1) == i
  {
    if i == 0 {} else if i == 1 {} else if i == 2 {} else if i == 3 {} else if i == 4 {}
    else if i == 5 {} else if i == 6 {} else if i == 7 {} else if i == 8 {} else if i == 9 {}
  }

  /** The orderings of two different canonical keys never coincide. */
  lemma RawOrderingsDisjoint(i: nat, j: nat, p: string)
    requires i < j < |RawForward|
    ensures !(p in Permutations(RawForward[i].0) && p in Permutations(RawForward[j].0))
  {
    if p in Permutations(RawForward[i].0) && p in Permutations(RawForward[j].0) {
      PermutationOfRaw(i, p);
      PermutationOfRaw(j, p);
      RawForwardAgrees(i);
      RawForwardAgrees(j);
      SymbolOfMembers(RawForward[i].1);
      SymbolOfMembers(RawForward[j].1);
      RawIndexOf(i);
      RawIndexOf(j);
    }
  }

  lemma {:induction false} ForwardFromValue(n: nat, i: nat, p: string)
    requires i < n <= |RawForward| && p in Permutations(RawForward[i].0)
    ensures p in ForwardFrom(RawForward, n) && ForwardFrom(RawForward, n)[p] == RawForward[i].1
  {
    if i < n - 1 {
      ForwardFromValue(n - 1, i, p);
      RawOrderingsDisjoint(i, n - 1, p);
    }
  }

  lemma ForwardKeyIsMultiBase(p: string)
    requires p in ForwardTable()
    ensures IsMultiBaseKey(p)
    ensures var s := ForwardTable()[p];
            s in Reverse && s !in Bases && Members(s) == Elems(p)
  {
    ForwardFromKeys(RawForward, |RawForward|, p);
    var i :| 0 <= i < |RawForward| && p in Permutations(RawForward[i].0);
    ForwardFromValue(|RawForward|, i, p);
    PermutationOfRaw(i, p);
    RawForwardAgrees(i);
    NoDupCard(p);
    NoDupCard(RawForward[i].0);
  }

  lemma MultiBaseIsForwardKey(p: string)
    requires IsMultiBaseKey(p)
    ensures p in ForwardTable()
  {
    NoDupCard(p);
    var m := Elems(p);
    assert p[0] in m;
    MembersOfSymbol(m);
    var s := SymbolOf(m);
    assert s !in Bases by {
      if s in Bases {
        PlainBase(s);
      }
    }
    DegenerateIsRaw(s);
    var i :| 0 <= i < |RawForward| && RawForward[i].1 == s;
    PermutationOfRaw(i, p);
    ForwardFromKeys(RawForward, |RawForward|, p);
  }

  /**
   * The forward table holds exactly the multi-base keys; each maps to the
   * degenerate symbol whose member set is the key's set of bases.
   */
  lemma ForwardTableSpec(p: string)
    ensures p in ForwardTable() <==> IsMultiBaseKey(p)
    ensures p in ForwardTable() ==>
              var s := ForwardTable()[p];
              s in Reverse && s !in Bases && Members(s) == Elems(p)
  {
    if p in ForwardTable() {
      ForwardKeyIsMultiBase(p);
    }
    if IsMultiBaseKey(p) {
      MultiBaseIsForwardKey(p);
    }
  }

  /** Every ordering of a canonical key maps to that key's symbol; no single base is a key. */
  lemma CanonicalOrderings(i: nat, p: string)
    requires i < |RawForward| && p in Permutations(RawForward[i].0)
    ensures p in ForwardTable() && ForwardTable()[p] == RawForward[i].1
    ensures var s := RawForward[i].1; s in Reverse && Members(s) == Elems(RawForward[i].0)
  {
    ForwardFromValue(|RawForward|, i, p);
    RawForwardAgrees(i);
  }

  lemma NoSingleBaseKey(p: string)
    requires |p| <= 1
    ensures p !in ForwardTable()
  {
    ForwardTableSpec(p);
  }

  /** One pass of forward_substitutions' inner loop: every ordering of key is mapped to value. */
  method InsertOrderings(m0: map<string, char>, key: string, value: char) returns (m: map<string, char>)
    ensures m == m0 + PermutedEntries(key, value)
  {
    m := m0;
    var all := Permutations(key);
    var newKeys := all;
    ghost var done: set<string> := {};
    while newKeys != {}
      invariant done + newKeys == all && done !! newKeys
      invariant m.Keys == m0.Keys + done
      invariant forall p | p in m :: m[p] == if p in done then value else m0[p]
      decreases newKeys
    {
      var newKey :| newKey in newKeys;
      m := m[newKey := value];
      done := done + {newKey};
      newKeys := newKeys - {newKey};
    }
    ghost var entries := PermutedEntries(key, value);
    assert entries.Keys == all;
    assert m.Keys == (m0 + entries).Keys;
  }

  /** The forward table described by its keys and values rather than by how it is built. */
  ghost predicate IsForwardTable(m: map<string, char>) {
    && (forall p :: p in m <==> IsMultiBaseKey(p))
    && (forall p | p in m :: m[p] in Reverse && m[p] !in Bases && Members(m[p]) == Elems(p))
  }

  /** forward_substitutions: insert every ordering of every canonical key. */
  method ForwardSubstitutions() returns (m: map<string, char>)
    ensures m == ForwardTable()
    ensures forall p :: p in m <==> IsMultiBaseKey(p)
    ensures forall p | p in m :: m[p] in Reverse && m[p] !in Bases && Members(m[p]) == Elems(p)
  {
    m := InsertAll(RawForward);
    ForwardTableIsForward();
  }

  /** The outer loop of forward_substitutions: the orderings of each key of raw in turn. */
  method InsertAll(raw: seq<(string, char)>) returns (m: map<string, char>)
    ensures m == ForwardFrom(raw, |raw|)
  {
    m := map[];
    for n := 0 to |raw|
      invariant m == ForwardFrom(raw, n)
    {
      var (key, value) := raw[n];
      m := InsertOrderings(m, key, value);
    }
  }

  /** The built table meets its description. */
  lemma ForwardTableIsForward()
    ensures IsForwardTable(ForwardTable())
  {
    forall p
      ensures p in ForwardTable() <==> IsMultiBaseKey(p)
      ensures p in ForwardTable() ==>
                var s := ForwardTable()[p];
                s in Reverse && s !in Bases && Members(s) == Elems(p)
    {
      ForwardTableSpec(p);
    }
  }
}
