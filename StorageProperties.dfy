/** Properties of the article store that relate several operations
    (src/lib/storage.ts): what a mutator writes back is exactly what the next
    read returns, deleting twice equals deleting once, an added article can be
    found again, and the read order is the one stable newest-first order. */
module StorageProperties {
  import opened ArticleTypes
  import opened JsText
  import opened Storage

  // ---------------------------------------------------------------------------
  // The read order is fully determined
  // ---------------------------------------------------------------------------

  lemma {:induction false} WithCreatedAtMember(s: seq<Article>, k: int, x: Article)
    requires x in WithCreatedAt(s, k)
    ensures x in s && x.createdAt == k
  {
    if s != [] {
      if x != s[0] || s[0].createdAt != k {
        WithCreatedAtMember(s[1..], k, x);
      }
    }
  }

  lemma HeadHasTies(s: seq<Article>)
    requires s != []
    ensures WithCreatedAt(s, s[0].createdAt) != []
  {
  }

  /** Two newest-first orderings that break every tie the same way are the
      same sequence: a stable sort has exactly one possible result. */
  lemma {:induction false} StableNewestFirstIsUnique(r1: seq<Article>, r2: seq<Article>)
    requires NewestFirst(r1) && NewestFirst(r2)
    requires forall k :: WithCreatedAt(r1, k) == WithCreatedAt(r2, k)
    ensures r1 == r2
    decreases |r1| + |r2|
  {
    if r1 == [] && r2 == [] {
      return;
    }
    if r1 == [] {
      HeadHasTies(r2);
      assert false;
    }
    if r2 == [] {
      HeadHasTies(r1);
      assert false;
    }
    var k1, k2 := r1[0].createdAt, r2[0].createdAt;
    assert WithCreatedAt(r1, k1)[0] == r1[0];
    WithCreatedAtMember(r2, k1, WithCreatedAt(r2, k1)[0]);
    assert WithCreatedAt(r2, k2)[0] == r2[0];
    WithCreatedAtMember(r1, k2, WithCreatedAt(r1, k2)[0]);
    assert k1 == k2;
    assert r1[0] == r2[0];
    forall k ensures WithCreatedAt(r1[1..], k) == WithCreatedAt(r2[1..], k) {
      assert WithCreatedAt(r1, k) == (if k1 == k then [r1[0]] else []) + WithCreatedAt(r1[1..], k);
      assert WithCreatedAt(r2, k) == (if k2 == k then [r2[0]] else []) + WithCreatedAt(r2[1..], k);
      if k == k1 {
        assert WithCreatedAt(r1[1..], k) == WithCreatedAt(r1, k)[1..];
        assert WithCreatedAt(r2[1..], k) == WithCreatedAt(r2, k)[1..];
      } else {
        assert WithCreatedAt(r1[1..], k) == WithCreatedAt(r1, k);
        assert WithCreatedAt(r2[1..], k) == WithCreatedAt(r2, k);
      }
    }
    StableNewestFirstIsUnique(r1[1..], r2[1..]);
    assert r1 == [r1[0]] + r1[1..] && r2 == [r2[0]] + r2[1..];
  }

  /** `getArticles` on a stored array returns the only newest-first ordering
      of the backfilled articles that keeps stored order among equal
      creation times. */
  lemma GetArticlesIsTheStableOrder(stored: seq<Article>, r: seq<Article>)
    requires NewestFirst(r)
    requires forall k :: WithCreatedAt(r, k) == WithCreatedAt(NormaliseAll(stored), k)
    ensures GetArticles(Stored(stored)) == r
  {
    StableNewestFirstIsUnique(GetArticles(Stored(stored)), r);
  }

  // ---------------------------------------------------------------------------
  // Mutators persist the read view
  // ---------------------------------------------------------------------------

  lemma {:induction false} SortKeepsSorted(s: seq<Article>)
    requires NewestFirst(s)
    ensures SortNewestFirst(s) == s
  {
    if s != [] {
      assert NewestFirst(s[1..]);
      SortKeepsSorted(s[1..]);
      assert s == [s[0]] + s[1..];
    }
  }

  /** A newest-first array whose topics are all set reads back unchanged.
      Every mutator rebuilds the array from the read view, so the articles it
      carries over are stored in this form; a record it brings in (a new
      article, an updated one) is stored as supplied. */
  lemma PersistedViewReadsBack(s: seq<Article>)
    requires NewestFirst(s)
    requires forall a | a in s :: HasTopic(a)
    ensures GetArticles(Stored(s)) == s
  {
    forall i | 0 <= i < |s| ensures NormaliseAll(s)[i] == s[i] {
      assert HasTopic(s[i]);
    }
    assert NormaliseAll(s) == s;
    SortKeepsSorted(s);
    assert GetArticles(Stored(s)) == SortNewestFirst(NormaliseAll(s));
  }

  /** Writing back the read view does not change what is read. */
  lemma WriteBackKeepsView(slot: Slot)
    ensures GetArticles(Saved(slot, GetArticles(slot))) == GetArticles(slot)
  {
    if !slot.Unavailable? {
      PersistedViewReadsBack(GetArticles(slot));
    }
  }

  // ---------------------------------------------------------------------------
  // deleteArticle
  // ---------------------------------------------------------------------------

  /** The view after a delete is the old view without that id, in order. */
  lemma DeleteView(slot: Slot, id: string)
    ensures GetArticles(AfterDelete(slot, id)) == WithoutId(GetArticles(slot), id)
  {
    var view := GetArticles(slot);
    if !slot.Unavailable? {
      WithoutIdNewestFirst(view, id);
      PersistedViewReadsBack(WithoutId(view, id));
    }
  }

  /** Deleting the same id twice leaves the same stored collection as once. */
  lemma DeleteIdempotent(slot: Slot, id: string)
    ensures AfterDelete(AfterDelete(slot, id), id) == AfterDelete(slot, id)
  {
    DeleteView(slot, id);
  }

  /** Deleting an id nobody has removes nothing from what is read. */
  lemma DeleteMissingIdKeepsView(slot: Slot, id: string)
    requires forall a | a in GetArticles(slot) :: a.id != id
    ensures GetArticles(AfterDelete(slot, id)) == GetArticles(slot)
  {
    DeleteView(slot, id);
  }

  // ---------------------------------------------------------------------------
  // addArticle
  // ---------------------------------------------------------------------------

  lemma NormaliseAddedView(a: Article, view: seq<Article>)
    requires forall b | b in view :: HasTopic(b)
    ensures NormaliseAll([a] + view) == [Normalise(a)] + view
  {
  }

  /** After `addArticle`, the new article is read back, backfilled, ahead of
      every article with the same creation time, which keep their order. */
  lemma AddedArticleLeadsItsTies(slot: Slot, d: NewArticleData, idClock: int, createdClock: int)
    requires !slot.Unavailable?
    ensures var a := NewArticle(d, idClock, createdClock);
            var view := GetArticles(slot);
            WithCreatedAt(GetArticles(Saved(slot, [a] + view)), createdClock) ==
              [Normalise(a)] + WithCreatedAt(view, createdClock)
  {
    var a := NewArticle(d, idClock, createdClock);
    var view := GetArticles(slot);
    NormaliseAddedView(a, view);
    WithCreatedAtCons(Normalise(a), view, createdClock);
  }

  /** `addArticle` followed by `getArticleById` on the new id gives back the
      created record, with only its topic backfilled, provided no stored
      article already had that id. */
  lemma AddThenGetById(slot: Slot, d: NewArticleData, idClock: int, createdClock: int)
    requires !slot.Unavailable?
    requires forall b | b in GetArticles(slot) :: b.id != IntToDecimal(idClock)
    ensures var a := NewArticle(d, idClock, createdClock);
            GetArticleById(Saved(slot, [a] + GetArticles(slot)), a.id) == Some(Normalise(a))
  {
    var a := NewArticle(d, idClock, createdClock);
    var view := GetArticles(slot);
    var after := Saved(slot, [a] + view);
    NormaliseAddedView(a, view);
    var r := GetArticles(after);
    assert Normalise(a) in multiset(r);
    var found := FindById(r, a.id);
    assert found.Some?;
    assert found.value in multiset([Normalise(a)] + view);
  }

  /** `addArticle` grows what is read by exactly one article. */
  lemma AddGrowsViewByOne(slot: Slot, d: NewArticleData, idClock: int, createdClock: int)
    requires !slot.Unavailable?
    ensures var a := NewArticle(d, idClock, createdClock);
            |GetArticles(Saved(slot, [a] + GetArticles(slot)))| == |GetArticles(slot)| + 1
  {
  }

  // ---------------------------------------------------------------------------
  // updateArticle
  // ---------------------------------------------------------------------------

  /** An update that leaves `createdAt` alone and does not blank the topic is
      read back exactly as written: same length, same order, every article
      without that id unchanged. */
  lemma UpdateKeepsView(slot: Slot, id: string, u: ArticleUpdate)
    requires u.createdAt.None?
    requires u.topic.Omitted? || Truthy(u.topic.value)
    ensures var written := ApplyUpdate(GetArticles(slot), id, u);
            GetArticles(Saved(slot, written)) == written
  {
    var view := GetArticles(slot);
    var written := ApplyUpdate(view, id, u);
    if !slot.Unavailable? {
      forall b | b in written ensures HasTopic(b) {
        var i :| 0 <= i < |written| && written[i] == b;
        assert view[i] in view;
      }
      PersistedViewReadsBack(written);
    }
  }

  /** An update that blanks the topic is read back under "General". */
  lemma BlankedTopicReadsAsGeneral(slot: Slot, id: string, u: ArticleUpdate, i: nat)
    requires !slot.Unavailable?
    requires u.topic.Given? && !Truthy(u.topic.value)
    requires i < |GetArticles(slot)| && GetArticles(slot)[i].id == id
    ensures var written := ApplyUpdate(GetArticles(slot), id, u);
            Normalise(written[i]) in GetArticles(Saved(slot, written)) &&
            Normalise(written[i]).topic == Some(DefaultTopic)
  {
    var written := ApplyUpdate(GetArticles(slot), id, u);
    assert Normalise(written[i]) == NormaliseAll(written)[i];
    assert Normalise(written[i]) in multiset(GetArticles(Saved(slot, written)));
  }

  // ---------------------------------------------------------------------------
  // getUniqueTopics
  // ---------------------------------------------------------------------------

  /** The topics of the read view are the effective topics of the stored
      records themselves. */
  lemma ViewTopicsAreStoredTopics(stored: seq<Article>)
    ensures EffectiveTopics(GetArticles(Stored(stored))) == EffectiveTopics(stored)
  {
    var view := GetArticles(Stored(stored));
    forall t | t in EffectiveTopics(view) ensures t in EffectiveTopics(stored) {
      var a :| a in view && t == EffectiveTopic(a.topic);
      assert a in multiset(NormaliseAll(stored));
      var i :| 0 <= i < |stored| && NormaliseAll(stored)[i] == a;
      assert stored[i] in stored;
    }
    forall t | t in EffectiveTopics(stored) ensures t in EffectiveTopics(view) {
      var b :| b in stored && t == EffectiveTopic(b.topic);
      var i :| 0 <= i < |stored| && stored[i] == b;
      assert NormaliseAll(stored)[i] in multiset(view);
    }
  }
}
