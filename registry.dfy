/**
 * The language registry as a value: an id-keyed map of languages and the repository queries
 * the services use on it (count, lowest id, the default language, the active languages),
 * with the flag invariants the registry is meant to keep.
 */
module Registry {
  import opened Wrappers
  import opened Entities
  import Sets

  type Languages = map<int, Language>

  /** At most one language carries the `bydefault` flag. */
  ghost predicate AtMostOneDefault(langs: Languages)
  {
    forall a, b :: a in langs && b in langs && langs[a].bydefault && langs[b].bydefault ==> a == b
  }

  /** The default language, if any, is active. */
  ghost predicate DefaultIsActive(langs: Languages)
  {
    forall a :: a in langs && langs[a].bydefault ==> langs[a].active
  }

  /** At most one language carries the `initial` flag. */
  ghost predicate AtMostOneInitial(langs: Languages)
  {
    forall a, b :: a in langs && b in langs && langs[a].initial && langs[b].initial ==> a == b
  }

  /** The flag invariants every registry operation keeps. */
  ghost predicate Consistent(langs: Languages)
  {
    AtMostOneDefault(langs) && DefaultIsActive(langs) && AtMostOneInitial(langs)
  }

  /** A registry that has languages has an active one. */
  ghost predicate SomeActive(langs: Languages)
  {
    langs != map[] ==> exists a :: a in langs && langs[a].active
  }

  /** The active languages (`findByActive(true)`). */
  function ActiveIds(langs: Languages): (r: set<int>)
    ensures forall a :: a in r <==> a in langs && langs[a].active
  {
    set a | a in langs && langs[a].active
  }

  lemma {:induction false} HasLeast(ids: set<int>)
    requires ids != {}
    ensures exists m :: m in ids && forall k :: k in ids ==> m <= k
    decreases ids
  {
    Sets.NonEmptyHasElement(ids);
    var x :| x in ids;
    if ids != {x} {
      var rest := ids - {x};
      assert rest != {} by { assert ids == rest + {x}; }
      HasLeast(rest);
      var m :| m in rest && forall k :: k in rest ==> m <= k;
      if x < m {
        forall k | k in ids ensures x <= k {
          if k != x { assert k in rest; }
        }
      } else {
        forall k | k in ids ensures m <= k {
          if k != x { assert k in rest; }
        }
        assert m in ids;
      }
    } else {
      assert forall k :: k in ids ==> x <= k;
    }
  }

  /** The smallest id of a non-empty set (`findTopByOrderByIdAsc`). */
  function LowestId(ids: set<int>): (m: int)
    requires ids != {}
    ensures m in ids && forall k :: k in ids ==> m <= k
  {
    HasLeast(ids);
    var m :| m in ids && forall k :: k in ids ==> m <= k; m
  }

  /**
   * The default language (`findByBydefault(true)`). The repository query fails when two
   * languages are flagged, so callers keep at most one.
   */
  function DefaultLanguage(langs: Languages): (r: Option<int>)
    requires AtMostOneDefault(langs)
    ensures r.Some? ==> r.value in langs && langs[r.value].bydefault
    ensures r.None? ==> forall a :: a in langs ==> !langs[a].bydefault
  {
    if exists a :: a in langs && langs[a].bydefault then
      var a :| a in langs && langs[a].bydefault; Some(a)
    else
      None
  }
}
