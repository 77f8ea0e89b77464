/** The check of a taxonomy version: sizes, fields, and a forest of bounded depth. */
module Taxonomy {
  import opened Results
  import opened Distinctness

  /** Synonyms are given case-folded. */
  datatype Term = Term(key: string, name: string, definition: string, parent: Option<string>, synonyms: seq<string>)

  datatype Verdict =
    | Accepted | SizeInvalid | DuplicateKey | TermInvalid | DuplicateSynonym
    | ParentUnknown | Cycle | DepthExceeded | KeyMissing

  type Index = map<string, Term>

  const MAX_DEPTH: nat := 8

  function Keys(terms: seq<Term>): (keys: seq<string>)
    ensures |keys| == |terms| && forall i :: 0 <= i < |terms| ==> keys[i] == terms[i].key
  {
    seq(|terms|, i requires 0 <= i < |terms| => terms[i].key)
  }

  /** The terms by key; a later term replaces an earlier one. */
  function ByKey(terms: seq<Term>): (index: Index)
    ensures index.Keys == set k | k in Keys(terms)
    ensures forall k :: k in index ==> index[k] in terms && index[k].key == k
  {
    if terms == [] then map[]
    else
      var n := |terms| - 1;
      assert Keys(terms) == Keys(terms[..n]) + [terms[n].key];
      ByKey(terms[..n])[terms[n].key := terms[n]]
  }

  predicate FieldsFit(t: Term) {
    2 <= |t.key| <= 80 && 2 <= |t.name| <= 120 && 10 <= |t.definition| <= 2000 && |t.synonyms| <= 20
  }

  /** Key, name, definition and synonyms within their sizes. */
  predicate IsWellFormed(t: Term) {
    && !(|t.key| < 2 || |t.key| > 80) && !(|t.name| < 2 || |t.name| > 120)
    && !(|t.definition| < 10 || |t.definition| > 2000) && !(|t.synonyms| > 20)
  }

  lemma {:induction false} WellFormedExactly(t: Term)
    ensures FieldsFit(t) <==> IsWellFormed(t)
  {
  }

  ghost predicate Indexed(index: Index) { forall k :: k in index ==> index[k].key == k }

  // ----- parent chains -----

  /** Keys of the index, each followed by its parent. */
  predicate Chain(index: Index, c: seq<string>) {
    && c != [] && (forall i :: 0 <= i < |c| ==> c[i] in index)
    && forall i :: 0 <= i < |c| - 1 ==> index[c[i]].parent == Some(c[i + 1])
  }

  /** The key above the last one of a chain. */
  function Above(index: Index, c: seq<string>): Option<string>
    requires Chain(index, c)
  {
    index[c[|c| - 1]].parent
  }

  ghost predicate ReachesRoot(index: Index, key: string, steps: nat) {
    exists c :: Chain(index, c) && c[0] == key && |c| <= steps + 1 && Above(index, c) == None
  }

  // ----- the walk up -----

  /** The chain by which a walk finds its outcome. */
  predicate Shows(index: Index, key: string, v: Verdict, c: seq<string>) {
    && Chain(index, c) && c[0] == key && |c| <= 9
    && match v
       case Accepted => Above(index, c) == None
       case Cycle => !Distinct(c)
       case DepthExceeded => |c| == 9 && Distinct(c) && Above(index, c).Some?
       case KeyMissing => |c| <= 8 && Distinct(c) && Above(index, c).Some? && Above(index, c).value !in index
       case _ => false
  }

  /** What the walk up from a key finds. */
  ghost predicate WalkFinds(index: Index, key: string, v: Verdict) { exists c :: Shows(index, key, v, c) }

  lemma {:induction false} PrefixIsChain(index: Index, c: seq<string>, n: nat)
    requires Chain(index, c) && 1 <= n <= |c|
    ensures Chain(index, c[..n])
  {
  }

  /** A key has one chain of each length. */
  lemma {:induction false} ChainIsUnique(index: Index, a: seq<string>, b: seq<string>)
    requires Chain(index, a) && Chain(index, b) && a[0] == b[0] && |a| <= |b|
    ensures a == b[..|a|]
    decreases |a|
  {
    if |a| > 1 {
      var n := |a| - 1;
      PrefixIsChain(index, a, n);
      ChainIsUnique(index, a[..n], b);
      assert a[n - 1] == b[n - 1];
      assert Some(a[n - 1 + 1]) == index[a[n - 1]].parent == Some(b[n - 1 + 1]);
      assert a == a[..n] + [a[n]] && b[..|a|] == b[..n] + [b[n]];
    }
  }

  lemma {:induction false} ParentFollows(index: Index, c: seq<string>, i: nat)
    requires Chain(index, c) && i + 1 < |c|
    ensures index[c[i]].parent == Some(c[i + 1]) && c[i + 1] in index
  {
  }

  /** A chain that cannot be continued inside the index. */
  predicate Ends(index: Index, c: seq<string>) {
    Chain(index, c) && (Above(index, c) == None || Above(index, c).value !in index)
  }

  lemma {:induction false} EndIsLongest(index: Index, c: seq<string>, other: seq<string>)
    requires Ends(index, c) && Chain(index, other) && c[0] == other[0]
    ensures |other| <= |c| && other == c[..|other|]
  {
    if |c| < |other| {
      ParentFollows(index, other, |c| - 1);
      ChainIsUnique(index, c, other);
      assert false;
    } else {
      ChainIsUnique(index, other, c);
    }
  }

  lemma {:induction false} EndingChainIsDistinct(index: Index, c: seq<string>, i: nat, j: nat)
    requires Ends(index, c) && i < j < |c|
    ensures c[i] != c[j]
    decreases |c| - j
  {
    if c[i] == c[j] {
      assert index[c[i]].parent == Some(c[i + 1]);
      if j + 1 < |c| {
        assert index[c[j]].parent == Some(c[j + 1]);
        EndingChainIsDistinct(index, c, i + 1, j + 1);
      }
    }
  }

  /** Chains from one key: one that ends has no repetition and contains every other. */
  lemma {:induction false} EndExcludesRepeats(index: Index, c: seq<string>, other: seq<string>)
    requires Ends(index, c) && Chain(index, other) && c[0] == other[0]
    ensures Distinct(other)
  {
    EndIsLongest(index, c, other);
    forall i, j | 0 <= i < j < |other| ensures other[i] != other[j] { EndingChainIsDistinct(index, c, i, j); }
  }

  lemma {:induction false} EndIsUnique(index: Index, c: seq<string>, other: seq<string>)
    requires Ends(index, c) && Ends(index, other) && c[0] == other[0]
    ensures c == other
  {
    EndIsLongest(index, c, other);
    EndIsLongest(index, other, c);
  }

  /** The walk up has one outcome. */
  lemma {:induction false} WalkIsDetermined(index: Index, key: string, v: Verdict, w: Verdict)
    requires WalkFinds(index, key, v) && WalkFinds(index, key, w)
    ensures v == w
  {
    var c :| Shows(index, key, v, c);
    var d :| Shows(index, key, w, d);
    if Ends(index, c) && Ends(index, d) {
      EndIsUnique(index, c, d);
      EndExcludesRepeats(index, c, d);
    } else if Ends(index, c) {
      EndIsLongest(index, c, d);
      EndExcludesRepeats(index, c, d);
    } else if Ends(index, d) {
      EndIsLongest(index, d, c);
      EndExcludesRepeats(index, d, c);
    } else if |c| <= |d| {
      ChainIsUnique(index, c, d);
    } else {
      ChainIsUnique(index, d, c);
    }
  }

  method WalkUp(index: Index, term: Term) returns (v: Verdict)
    requires Indexed(index) && term.key in index && index[term.key] == term
    ensures WalkFinds(index, term.key, v)
  {
    var seen: set<string> := {};
    var current := term;
    var depth := 0;
    ghost var chain := [term.key];
    while current.parent.Some?
      invariant Chain(index, chain) && chain[0] == term.key && |chain| == depth + 1 && depth <= MAX_DEPTH
      invariant current.key in index && current == index[chain[depth]] && current.key == chain[depth]
      invariant forall k :: k in seen <==> k in chain[..depth]
      invariant Distinct(chain[..depth])
      decreases MAX_DEPTH - depth
    {
      if current.key in seen {
        ghost var i :| 0 <= i < depth && chain[i] == current.key;
        assert chain[i] == chain[depth];
        assert Shows(index, term.key, Cycle, chain);
        return Cycle;
      }
      assert chain == chain[..depth] + [current.key];
      seen := seen + {current.key};
      depth := depth + 1;
      assert Distinct(chain) && Above(index, chain) == current.parent;
      if depth > MAX_DEPTH {
        assert Shows(index, term.key, DepthExceeded, chain);
        return DepthExceeded;
      }
      if current.parent.value !in index {
        assert Shows(index, term.key, KeyMissing, chain);
        return KeyMissing;
      }
      current := index[current.parent.value];
      assert (chain + [current.key])[..depth] == chain;
      chain := chain + [current.key];
    }
    assert Shows(index, term.key, Accepted, chain);
    return Accepted;
  }

  // ----- the whole check -----

  /** What the check finds in one term. */
  ghost predicate TermFinds(index: Index, t: Term, v: Verdict) {
    if !IsWellFormed(t) then v == TermInvalid
    else if !Distinct(t.synonyms) then v == DuplicateSynonym
    else if t.parent.Some? && t.parent.value !in index then v == ParentUnknown
    else WalkFinds(index, t.key, v)
  }

  /** One to ten thousand well-formed terms with their own keys, each within eight steps of a root. */
  ghost predicate Conforms(terms: seq<Term>) {
    && 1 <= |terms| <= 10000 && Distinct(Keys(terms))
    && forall t :: t in terms ==> IsWellFormed(t) && Distinct(t.synonyms) && ReachesRoot(ByKey(terms), t.key, 8)
  }

  /** Some term has the fault `v`, and the terms before it have none. */
  ghost predicate FirstFault(terms: seq<Term>, v: Verdict) {
    exists i: nat :: FaultAt(terms, i, v)
  }

  ghost predicate FaultAt(terms: seq<Term>, i: nat, v: Verdict) {
    && i < |terms| && v != Accepted && TermFinds(ByKey(terms), terms[i], v)
    && forall j :: 0 <= j < i ==> TermFinds(ByKey(terms), terms[j], Accepted)
  }

  lemma {:induction false} TermIsDetermined(index: Index, t: Term, v: Verdict, w: Verdict)
    requires TermFinds(index, t, v) && TermFinds(index, t, w)
    ensures v == w
  {
    hide IsWellFormed, Distinct, WalkFinds;
    if WalkFinds(index, t.key, v) && WalkFinds(index, t.key, w) { WalkIsDetermined(index, t.key, v, w); }
  }

  lemma {:induction false} FaultIsUnique(terms: seq<Term>, i: nat, v: Verdict, w: Verdict)
    requires FaultAt(terms, i, v) && FirstFault(terms, w)
    ensures v == w
  {
    hide TermFinds, ByKey;
    var k: nat :| FaultAt(terms, k, w);
    if k < i {
      TermIsDetermined(ByKey(terms), terms[k], w, Accepted);
    } else if i < k {
      TermIsDetermined(ByKey(terms), terms[i], v, Accepted);
    } else {
      TermIsDetermined(ByKey(terms), terms[i], v, w);
    }
  }

  lemma {:induction false} NoFaultAmongAccepted(terms: seq<Term>, w: Verdict)
    requires forall j :: 0 <= j < |terms| ==> TermFinds(ByKey(terms), terms[j], Accepted)
    ensures !FirstFault(terms, w)
  {
    hide TermFinds, ByKey;
    if FirstFault(terms, w) {
      var k: nat :| FaultAt(terms, k, w);
      TermIsDetermined(ByKey(terms), terms[k], w, Accepted);
    }
  }

  /** A check that fails reports the first faulty term; it accepts exactly the conforming versions. */
  method Validate(terms: seq<Term>) returns (v: Verdict)
    ensures v == SizeInvalid <==> |terms| == 0 || |terms| > 10000
    ensures v == DuplicateKey <==> 1 <= |terms| <= 10000 && !Distinct(Keys(terms))
    ensures v == Accepted <==> Conforms(terms)
    ensures forall w :: w !in {SizeInvalid, DuplicateKey, Accepted} ==>
              (v == w <==> 1 <= |terms| <= 10000 && Distinct(Keys(terms)) && FirstFault(terms, w))
  {
    hide Keys, ByKey, Distinct, IsWellFormed, WalkFinds, ReachesRoot, TermFinds, FirstFault;
    if |terms| == 0 || |terms| > 10000 { return SizeInvalid; }
    var index := ByKey(terms);
    DistinctByCount(Keys(terms));
    assert |index| == |index.Keys|;
    if |index| != |terms| { return DuplicateKey; }
    for i := 0 to |terms|
      invariant forall j :: 0 <= j < i ==> TermFinds(index, terms[j], Accepted)
    {
      IndexHolds(terms, i);
      v := CheckTerm(index, terms[i]);
      if v != Accepted {
        FaultRefusesTerm(index, terms[i], v);
        FaultIsFirst(terms, i, v);
        return;
      }
    }
    v := Accepted;
    forall i | 0 <= i < |terms|
      ensures IsWellFormed(terms[i]) && Distinct(terms[i].synonyms) && ReachesRoot(index, terms[i].key, 8)
    {
      AcceptedTerm(index, terms[i]);
    }
    forall w ensures !FirstFault(terms, w) { NoFaultAmongAccepted(terms, w); }
  }

  lemma {:induction false} FaultIsFirst(terms: seq<Term>, i: nat, v: Verdict)
    requires FaultAt(terms, i, v)
    ensures forall w :: FirstFault(terms, w) <==> w == v
  {
    forall w ensures FirstFault(terms, w) ==> w == v { if FirstFault(terms, w) { FaultIsUnique(terms, i, v, w); } }
  }

  lemma {:induction false} AcceptedTerm(index: Index, t: Term)
    requires TermFinds(index, t, Accepted)
    ensures IsWellFormed(t) && Distinct(t.synonyms) && ReachesRoot(index, t.key, 8)
  {
    AcceptanceIsRoot(index, t.key);
  }

  method CheckTerm(index: Index, t: Term) returns (v: Verdict)
    requires Indexed(index) && t.key in index && index[t.key] == t
    ensures TermFinds(index, t, v)
  {
    hide Distinct, WalkFinds, FieldsFit, IsWellFormed;
    WellFormedExactly(t);
    if !FieldsFit(t) { return TermInvalid; }
    var synonyms := set s | s in t.synonyms;
    DistinctByCount(t.synonyms);
    if |synonyms| != |t.synonyms| { return DuplicateSynonym; }
    if t.parent.Some? && t.parent.value !in index { return ParentUnknown; }
    v := WalkUp(index, t);
  }

  lemma {:induction false} AcceptanceIsRoot(index: Index, key: string)
    ensures WalkFinds(index, key, Accepted) <==> ReachesRoot(index, key, 8)
  {
    if WalkFinds(index, key, Accepted) {
      var c :| Shows(index, key, Accepted, c);
      assert Chain(index, c);
    }
    if ReachesRoot(index, key, 8) {
      var c :| Chain(index, c) && c[0] == key && |c| <= 9 && Above(index, c) == None;
      assert Shows(index, key, Accepted, c);
    }
  }

  /** What a term is refused for keeps it from meeting the conditions. */
  lemma {:induction false} FaultRefusesTerm(index: Index, t: Term, v: Verdict)
    requires t.key in index && index[t.key] == t && TermFinds(index, t, v) && v != Accepted
    ensures v != SizeInvalid && v != DuplicateKey
    ensures !(IsWellFormed(t) && Distinct(t.synonyms) && ReachesRoot(index, t.key, 8))
  {
    hide Distinct, IsWellFormed;
    AcceptanceIsRoot(index, t.key);
    if ReachesRoot(index, t.key, 8) {
      var c :| Chain(index, c) && c[0] == t.key && |c| <= 9 && Above(index, c) == None;
      if |c| > 1 { ParentFollows(index, c, 0); }
      if WalkFinds(index, t.key, v) { WalkIsDetermined(index, t.key, v, Accepted); }
    }
  }

  /**
   * A term under a parent whose own parent is unknown: with the child first the check stops on the
   * missing key, with the parent first on the unknown parent.
   */
  lemma {:induction false} UnknownGrandparent(child: Term, parent: Term)
    requires IsWellFormed(child) && IsWellFormed(parent) && Distinct(child.synonyms) && Distinct(parent.synonyms)
    requires child.parent == Some(parent.key) && parent.parent.Some? && parent.parent.value !in {child.key, parent.key}
    requires child.key != parent.key
    ensures FirstFault([child, parent], KeyMissing) && FirstFault([parent, child], ParentUnknown)
  {
    hide ByKey, IsWellFormed;
    var terms, turned := [child, parent], [parent, child];
    assert Keys(terms) == [child.key, parent.key] && Keys(turned) == [parent.key, child.key];
    IndexHolds(terms, 0);
    IndexHolds(terms, 1);
    IndexHolds(turned, 0);
    assert Shows(ByKey(terms), child.key, KeyMissing, [child.key, parent.key]);
    assert FaultAt(terms, 0, KeyMissing) && FaultAt(turned, 0, ParentUnknown);
  }

  /** A conforming version is a forest: no chain repeats a key, and every term is under one root. */
  lemma {:induction false} ConformingIsForest(terms: seq<Term>, c: seq<string>)
    requires Conforms(terms) && Chain(ByKey(terms), c)
    ensures Distinct(c) && |c| <= 9
    ensures exists root ::
              Chain(ByKey(terms), root) && root[0] == c[0] && Above(ByKey(terms), root) == None && c <= root
  {
    hide Keys, ByKey, IsWellFormed;
    var index := ByKey(terms);
    assert c[0] in index && index[c[0]] in terms && index[c[0]].key == c[0];
    var root :| Chain(index, root) && root[0] == c[0] && |root| <= 9 && Above(index, root) == None;
    EndExcludesRepeats(index, root, c);
    EndIsLongest(index, root, c);
  }

  lemma {:induction false} IndexHolds(terms: seq<Term>, i: nat)
    requires Distinct(Keys(terms)) && i < |terms|
    ensures terms[i].key in ByKey(terms) && ByKey(terms)[terms[i].key] == terms[i]
  {
    hide Keys, ByKey;
    var k := terms[i].key;
    assert Keys(terms)[i] == k && k in ByKey(terms);
    var j :| 0 <= j < |terms| && terms[j] == ByKey(terms)[k];
    assert Keys(terms)[j] == k;
  }
}
