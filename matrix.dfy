/**
 * The descriptor matrix: descriptors keyed by id, each linking one node and one language.
 * The intended shape is "dense": every (node, language) pair of the store has exactly one
 * descriptor. The store keeps a ghost index `cell` from pairs to descriptor ids:
 *  - `Keyed`: every descriptor links a live node and a live language and is the one the index
 *    names for its pair (so no two descriptors share a pair);
 *  - `Covered`: every pair of the grid has an indexed descriptor.
 * `KeyedIsUnique` and `CoveredIsDense` restate both without the index.
 */
module Matrix {
  import opened Wrappers
  import opened Entities
  import Sets

  type Descriptors = map<int, Descriptor>
  type Index = map<(int, int), int>

  /** Every descriptor links a node of N and a language of L and is indexed under that pair. */
  ghost predicate Keyed(N: set<int>, L: set<int>, descs: Descriptors, cell: Index)
  {
    forall d :: d in descs ==>
      && descs[d].node.Some? && descs[d].language.Some?
      && descs[d].node.value in N && descs[d].language.value in L
      && (descs[d].node.value, descs[d].language.value) in cell
      && cell[(descs[d].node.value, descs[d].language.value)] == d
  }

  /** Every (node, language) pair of N x L has an indexed descriptor linking exactly it. */
  ghost predicate Covered(N: set<int>, L: set<int>, descs: Descriptors, cell: Index)
  {
    forall n, l :: n in N && l in L ==>
      (n, l) in cell && cell[(n, l)] in descs && Links(descs[cell[(n, l)]], n, l)
  }

  /** Index-free density: every pair of N x L has some descriptor. */
  ghost predicate Dense(N: set<int>, L: set<int>, descs: Descriptors)
  {
    forall n, l :: n in N && l in L ==> exists d :: d in descs && Links(descs[d], n, l)
  }

  /** Index-free uniqueness: no two descriptors link the same pair. */
  ghost predicate Unique(descs: Descriptors)
  {
    forall d1, d2 ::
      (d1 in descs && d2 in descs && descs[d1].node == descs[d2].node &&
       descs[d1].language == descs[d2].language) ==> d1 == d2
  }

  /** The descriptors that name node n (the source's `findAllByNode_Id`, Node.descriptors). */
  function DescriptorsOf(descs: Descriptors, n: int): (r: Descriptors)
  {
    map d | d in descs && descs[d].node == Some(n) :: descs[d]
  }

  /** The descriptors that name language l (Language.descriptors). */
  function DescriptorsIn(descs: Descriptors, l: int): (r: Descriptors)
  {
    map d | d in descs && descs[d].language == Some(l) :: descs[d]
  }

  /** The languages named by a set of descriptors. */
  ghost function LanguagesOf(descs: Descriptors): set<int>
  {
    set d | d in descs && descs[d].language.Some? :: descs[d].language.value
  }

  /** The nodes named by a set of descriptors. */
  ghost function NodesOf(descs: Descriptors): set<int>
  {
    set d | d in descs && descs[d].node.Some? :: descs[d].node.value
  }

  lemma KeyedIsUnique(N: set<int>, L: set<int>, descs: Descriptors, cell: Index)
    requires Keyed(N, L, descs, cell)
    ensures Unique(descs)
  {
  }

  lemma CoveredIsDense(N: set<int>, L: set<int>, descs: Descriptors, cell: Index)
    requires Covered(N, L, descs, cell)
    ensures Dense(N, L, descs)
  {
    forall n, l | n in N && l in L ensures exists d :: d in descs && Links(descs[d], n, l) {
      var d := cell[(n, l)];
      assert d in descs && Links(descs[d], n, l);
    }
  }

  /**
   * In a keyed matrix whose row for node n is covered, n has exactly one descriptor per
   * language: the descriptors of n name every language of L, and |DescriptorsOf(n)| = |L|.
   */
  lemma DescriptorsOfNodeMatchLanguages(N: set<int>, L: set<int>, descs: Descriptors, cell: Index, n: int)
    requires Keyed(N, L, descs, cell) && Covered({n}, L, descs, cell)
    ensures LanguagesOf(DescriptorsOf(descs, n)) == L
    ensures |DescriptorsOf(descs, n)| == |L|
  {
    var mine := DescriptorsOf(descs, n);
    forall l | l in L ensures l in LanguagesOf(mine) {
      var d := cell[(n, l)];
      assert d in mine;
    }
    var lang := map d | d in mine :: mine[d].language.value;
    forall d1, d2 | d1 in mine && d2 in mine && lang[d1] == lang[d2] ensures d1 == d2 {
      assert cell[(n, lang[d1])] == d1 && cell[(n, lang[d2])] == d2;
    }
    Sets.InjectiveImageSize(mine.Keys, lang);
    assert (set d | d in mine.Keys :: lang[d]) == L;
  }

  /**
   * Symmetrically, in a keyed matrix whose column for language l is covered, l has exactly one
   * descriptor per node: they name every node of N, and |DescriptorsIn(l)| = |N|.
   */
  lemma DescriptorsInLanguageMatchNodes(N: set<int>, L: set<int>, descs: Descriptors, cell: Index, l: int)
    requires Keyed(N, L, descs, cell) && Covered(N, {l}, descs, cell)
    ensures NodesOf(DescriptorsIn(descs, l)) == N
    ensures |DescriptorsIn(descs, l)| == |N|
  {
    var mine := DescriptorsIn(descs, l);
    forall n | n in N ensures n in NodesOf(mine) {
      var d := cell[(n, l)];
      assert d in mine;
    }
    var node := map d | d in mine :: mine[d].node.value;
    forall d1, d2 | d1 in mine && d2 in mine && node[d1] == node[d2] ensures d1 == d2 {
      assert cell[(node[d1], l)] == d1 && cell[(node[d2], l)] == d2;
    }
    Sets.InjectiveImageSize(mine.Keys, node);
    assert (set d | d in mine.Keys :: node[d]) == N;
  }

  // ---------------------------------------------------------------------------------------
  // Cascading deletes

  /** The descriptors whose node is in M: what is left when the nodes outside M are deleted. */
  function OnNodes(descs: Descriptors, M: set<int>): (r: Descriptors)
  {
    map d | d in descs && descs[d].node.Some? && descs[d].node.value in M :: descs[d]
  }

  /** The descriptors whose language is not l: what is left when language l is deleted. */
  function OffLanguage(descs: Descriptors, l: int): (r: Descriptors)
  {
    map d | d in descs && descs[d].language != Some(l) :: descs[d]
  }

  /** Deleting nodes together with their descriptors keeps the matrix keyed and covered. */
  lemma DeletingNodesKeepsIndex(N: set<int>, L: set<int>, descs: Descriptors, cell: Index, M: set<int>)
    requires Keyed(N, L, descs, cell) && M <= N
    ensures Keyed(M, L, OnNodes(descs, M), cell)
    ensures Covered(N, L, descs, cell) ==> Covered(M, L, OnNodes(descs, M), cell)
    ensures M == N ==> OnNodes(descs, M) == descs
  {
    if M == N {
      assert forall d :: d in descs ==> d in OnNodes(descs, M);
    }
  }

  /** Deleting a language together with its descriptors keeps the matrix keyed and covered. */
  lemma DeletingLanguageKeepsIndex(N: set<int>, L: set<int>, descs: Descriptors, cell: Index, l: int)
    requires Keyed(N, L, descs, cell)
    ensures Keyed(N, L - {l}, OffLanguage(descs, l), cell)
    ensures Covered(N, L, descs, cell) ==> Covered(N, L - {l}, OffLanguage(descs, l), cell)
    ensures l !in L ==> OffLanguage(descs, l) == descs
  {
    if l !in L {
      assert forall d :: d in descs ==> d in OffLanguage(descs, l);
    }
  }

  // ---------------------------------------------------------------------------------------
  // Storing one new descriptor for a pair that has none

  /** Storing a descriptor under a fresh id for a pair that has none, and indexing it, keeps the matrix keyed. */
  lemma InsertKeepsKeyed(N: set<int>, L: set<int>, descs: Descriptors, cell: Index, d: int, n: int, l: int,
                         desc: Descriptor)
    requires Keyed(N, L, descs, cell) && d !in descs && Links(desc, n, l) && n in N && l in L
    requires forall e :: e in descs ==> !Links(descs[e], n, l)
    ensures Keyed(N, L, descs[d := desc], cell[(n, l) := d])
  {
    forall e | e in descs
      ensures (descs[e].node.value, descs[e].language.value) != (n, l)
    {
      assert !Links(descs[e], n, l);
    }
  }

  /** The same insertion keeps every covered block covered and extends n's row by l. */
  lemma InsertKeepsCovered(M: set<int>, K: set<int>, descs: Descriptors, cell: Index, d: int, n: int, l: int,
                           desc: Descriptor)
    requires Covered(M, K, descs, cell) && d !in descs && Links(desc, n, l)
    requires forall e :: e in descs ==> !Links(descs[e], n, l)
    ensures Covered(M, K, descs[d := desc], cell[(n, l) := d])
    ensures M == {n} ==> Covered(M, K + {l}, descs[d := desc], cell[(n, l) := d])
    ensures K == {l} ==> Covered(M + {n}, K, descs[d := desc], cell[(n, l) := d])
  {
    forall m, k | m in M && k in K ensures (m, k) != (n, l) {
      var e := cell[(m, k)];
      assert e in descs && Links(descs[e], m, k);
    }
  }

  // ---------------------------------------------------------------------------------------
  // The expansion loops: filling the row of a new node, or the column of a new language

  /**
   * Halfway through giving node n its descriptors: the languages in `done` have theirs, every
   * descriptor of n names a language in `done`, nothing that existed before (`orig`) changed,
   * every descriptor added since is a blank one of n, and the rest of the grid is as covered as
   * it was.
   */
  ghost predicate RowFilling(N: set<int>, L: set<int>, orig: Descriptors, descs: Descriptors, cell: Index,
                             n: int, done: set<int>, wasCovered: bool)
  {
    && Keyed(N, L, descs, cell)
    && (wasCovered ==> Covered(N - {n}, L, descs, cell))
    && Covered({n}, done, descs, cell)
    && (forall d :: d in descs && descs[d].node == Some(n) ==> descs[d].language.Some? && descs[d].language.value in done)
    && (forall d :: d in orig ==> d in descs && descs[d] == orig[d])
    && (forall d :: d in descs && d !in orig ==> descs[d].node == Some(n) && IsBlank(descs[d]))
  }

  /** One step of the row loop: a new blank descriptor for (n, l) under a fresh id. */
  lemma RowFillingStep(N: set<int>, L: set<int>, orig: Descriptors, descs: Descriptors, cell: Index,
                       n: int, done: set<int>, wasCovered: bool, l: int, d: int)
    requires RowFilling(N, L, orig, descs, cell, n, done, wasCovered)
    requires n in N && l in L && l !in done && d !in descs
    ensures RowFilling(N, L, orig, descs[d := Descriptor(Some(n), Some(l), None, None, None)], cell[(n, l) := d],
                       n, done + {l}, wasCovered)
  {
    var desc := Descriptor(Some(n), Some(l), None, None, None);
    forall e | e in descs ensures !Links(descs[e], n, l) {
      if descs[e].node == Some(n) {
        assert descs[e].language.value in done;
      }
    }
    InsertKeepsKeyed(N, L, descs, cell, d, n, l, desc);
    InsertKeepsCovered({n}, done, descs, cell, d, n, l, desc);
    if wasCovered {
      InsertKeepsCovered(N - {n}, L, descs, cell, d, n, l, desc);
    }
  }

  /**
   * Halfway through giving language l its descriptors: the nodes in `done` have theirs, every
   * descriptor of l names a node in `done`, nothing that existed before changed, every descriptor
   * added since is a blank one of l, and the rest of the grid is as covered as it was.
   */
  ghost predicate ColumnFilling(N: set<int>, L: set<int>, orig: Descriptors, descs: Descriptors, cell: Index,
                                l: int, done: set<int>, wasCovered: bool)
  {
    && Keyed(N, L, descs, cell)
    && (wasCovered ==> Covered(N, L - {l}, descs, cell))
    && Covered(done, {l}, descs, cell)
    && (forall d :: d in descs && descs[d].language == Some(l) ==> descs[d].node.Some? && descs[d].node.value in done)
    && (forall d :: d in orig ==> d in descs && descs[d] == orig[d])
    && (forall d :: d in descs && d !in orig ==> descs[d].language == Some(l) && IsBlank(descs[d]))
  }

  /** One step of the column loop: a new blank descriptor for (n, l) under a fresh id. */
  lemma ColumnFillingStep(N: set<int>, L: set<int>, orig: Descriptors, descs: Descriptors, cell: Index,
                          l: int, done: set<int>, wasCovered: bool, n: int, d: int)
    requires ColumnFilling(N, L, orig, descs, cell, l, done, wasCovered)
    requires l in L && n in N && n !in done && d !in descs
    ensures ColumnFilling(N, L, orig, descs[d := Descriptor(Some(n), Some(l), None, None, None)], cell[(n, l) := d],
                          l, done + {n}, wasCovered)
  {
    var desc := Descriptor(Some(n), Some(l), None, None, None);
    forall e | e in descs ensures !Links(descs[e], n, l) {
      if descs[e].language == Some(l) {
        assert descs[e].node.value in done;
      }
    }
    InsertKeepsKeyed(N, L, descs, cell, d, n, l, desc);
    InsertKeepsCovered(done, {l}, descs, cell, d, n, l, desc);
    if wasCovered {
      InsertKeepsCovered(N, L - {l}, descs, cell, d, n, l, desc);
    }
  }

  /** A covered row (or column) joined to the covered rest of the grid covers the grid. */
  lemma CoveredJoin(N: set<int>, L: set<int>, descs: Descriptors, cell: Index, n: int, l: int)
    ensures Covered(N - {n}, L, descs, cell) && Covered({n}, L, descs, cell) ==> Covered(N, L, descs, cell)
    ensures Covered(N, L - {l}, descs, cell) && Covered(N, {l}, descs, cell) ==> Covered(N, L, descs, cell)
  {
  }

  /**
   * Adding a language while adding no descriptor leaves a gap: as soon as one node exists the
   * grid has a pair without a descriptor.
   */
  lemma NewLanguageWithoutDescriptorsLeavesGap(N: set<int>, L: set<int>, descs: Descriptors, cell: Index,
                                               n: int, newLang: int)
    requires Keyed(N, L, descs, cell) && newLang !in L && n in N
    ensures !Dense(N, L + {newLang}, descs)
  {
    forall d | d in descs ensures !Links(descs[d], n, newLang) {
      assert descs[d].language.value in L;
    }
    assert n in N && newLang in L + {newLang};
  }
}
