/** Three facts about finite sets of ids used by the counting and iteration arguments. */
module Sets {

  /** A set that is not empty has an element (the witness every `:|` over a set needs). */
  lemma NonEmptyHasElement(s: set<int>)
    requires s != {}
    ensures exists e :: e in s
  {
    if forall e :: e !in s {
      assert false;
    }
  }

  /** An injective map sends a set of keys to a set of the same size. */
  lemma {:induction false} InjectiveImageSize(ids: set<int>, f: map<int, int>)
    requires forall d :: d in ids ==> d in f
    requires forall d1, d2 :: d1 in ids && d2 in ids && f[d1] == f[d2] ==> d1 == d2
    ensures |ids| == |set d | d in ids :: f[d]|
    decreases ids
  {
    if ids != {} {
      NonEmptyHasElement(ids);
      var d :| d in ids;
      var rest := ids - {d};
      var image, restImage := set e | e in ids :: f[e], set e | e in rest :: f[e];
      assert image == restImage + {f[d]};
      assert f[d] !in restImage;
      InjectiveImageSize(rest, f);
    }
  }

  /** A set with more than one element has an element other than any given x. */
  lemma AnotherElement(s: set<int>, x: int)
    requires |s| > 1
    ensures exists e :: e in s && e != x
  {
    var rest := s - {x};
    if x in s {
      assert s == rest + {x};
    } else {
      assert rest == s;
    }
    assert |rest| > 0;
    NonEmptyHasElement(rest);
  }
}
