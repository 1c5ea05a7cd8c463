/** The local article store (src/lib/storage.ts): one persisted collection of
    articles under the key `offline-articles`, read with `getArticles` and
    rewritten as a whole by every mutator. */
module Storage {
  import opened ArticleTypes
  import opened JsText

  /** The one persisted slot, as `getArticles` sees it: no `localStorage` at
      all, the key absent (or holding the empty string), text that does not
      parse as an article array, or a parsed array. */
  datatype Slot = Unavailable | Missing | Corrupt | Stored(articles: seq<Article>)

  // ---------------------------------------------------------------------------
  // Ordering: `sort((a, b) => b.createdAt - a.createdAt)`, a stable sort
  // ---------------------------------------------------------------------------

  /** Newest first: `createdAt` never increases along the sequence. */
  predicate NewestFirst(s: seq<Article>) {
    forall i, j | 0 <= i < j < |s| :: s[i].createdAt >= s[j].createdAt
  }

  /** The articles created at instant `k`, in sequence order. Two orderings
      with equal `WithCreatedAt` for every `k` agree on how ties are broken. */
  function WithCreatedAt(s: seq<Article>, k: int): seq<Article> {
    if s == [] then []
    else (if s[0].createdAt == k then [s[0]] else []) + WithCreatedAt(s[1..], k)
  }

  lemma WithCreatedAtCons(x: Article, s: seq<Article>, k: int)
    ensures WithCreatedAt([x] + s, k) == (if x.createdAt == k then [x] else []) + WithCreatedAt(s, k)
  {
    assert ([x] + s)[1..] == s;
  }

  /** An article no older than anything in a newest-first list can go in
      front of it. */
  lemma NewestFirstCons(x: Article, rest: seq<Article>)
    requires NewestFirst(rest)
    requires forall j | 0 <= j < |rest| :: x.createdAt >= rest[j].createdAt
    ensures NewestFirst([x] + rest)
  {
    var r := [x] + rest;
    assert forall j | 1 <= j < |r| :: r[j] == rest[j - 1];
  }

  /** Inserts `a` in front of every article not newer than it. */
  function InsertNewestFirst(a: Article, t: seq<Article>): (r: seq<Article>)
    requires NewestFirst(t)
    ensures NewestFirst(r)
    ensures multiset(r) == multiset(t) + multiset{a}
  {
    if t == [] || t[0].createdAt <= a.createdAt then
      NewestFirstCons(a, t);
      [a] + t
    else
      var rest := InsertNewestFirst(a, t[1..]);
      assert t == [t[0]] + t[1..];
      forall j | 0 <= j < |rest| ensures t[0].createdAt >= rest[j].createdAt {
        assert rest[j] in multiset(rest);
        if rest[j] != a {
          assert rest[j] in multiset(t[1..]);
          var m :| 0 <= m < |t| - 1 && t[1..][m] == rest[j];
          assert t[m + 1] == rest[j];
        }
      }
      NewestFirstCons(t[0], rest);
      [t[0]] + rest
  }

  /** Insertion keeps `a` ahead of the articles it ties with: it goes in front
      of every article not newer than it. */
  lemma {:induction false} InsertKeepsTies(a: Article, t: seq<Article>, k: int)
    requires NewestFirst(t)
    ensures WithCreatedAt(InsertNewestFirst(a, t), k) == (if a.createdAt == k then [a] else []) + WithCreatedAt(t, k)
  {
    if t == [] || t[0].createdAt <= a.createdAt {
      WithCreatedAtCons(a, t, k);
    } else {
      var rest := InsertNewestFirst(a, t[1..]);
      var ties := WithCreatedAt(t[1..], k);
      InsertKeepsTies(a, t[1..], k);
      WithCreatedAtCons(t[0], rest, k);
      assert t == [t[0]] + t[1..];
      WithCreatedAtCons(t[0], t[1..], k);
      if a.createdAt == k {
        assert WithCreatedAt(t, k) == ties;
        assert WithCreatedAt([t[0]] + rest, k) == WithCreatedAt(rest, k) == [a] + ties;
      } else {
        assert WithCreatedAt(rest, k) == ties;
      }
    }
  }

  /** The stable newest-first sort of the stored array. */
  function SortNewestFirst(s: seq<Article>): (r: seq<Article>)
    ensures |r| == |s|
    ensures NewestFirst(r)
    ensures multiset(r) == multiset(s)
    ensures forall k :: WithCreatedAt(r, k) == WithCreatedAt(s, k)
  {
    if s == [] then []
    else
      assert s == [s[0]] + s[1..];
      var sorted := SortNewestFirst(s[1..]);
      var r := InsertNewestFirst(s[0], sorted);
      assert |r| == |multiset(r)|;
      forall k ensures WithCreatedAt(r, k) == WithCreatedAt(s, k) {
        InsertKeepsTies(s[0], sorted, k);
      }
      r
  }

  // ---------------------------------------------------------------------------
  // Readers
  // ---------------------------------------------------------------------------

  /** `getArticles`: the stored array with every topic backfilled, newest
      first; the empty sequence whenever there is nothing readable. */
  function GetArticles(slot: Slot): (r: seq<Article>)
    ensures !slot.Stored? ==> r == []
    ensures slot.Stored? ==> |r| == |slot.articles|
    ensures slot.Stored? ==> multiset(r) == multiset(NormaliseAll(slot.articles))
    ensures slot.Stored? ==> forall k :: WithCreatedAt(r, k) == WithCreatedAt(NormaliseAll(slot.articles), k)
    ensures NewestFirst(r)
    ensures forall a | a in r :: HasTopic(a)
  {
    match slot
    case Stored(stored) =>
      var r := SortNewestFirst(NormaliseAll(stored));
      forall a | a in r ensures HasTopic(a) {
        assert a in multiset(NormaliseAll(stored));
      }
      r
    case _ => []
  }

  /** `Array.prototype.find` by id: the first article carrying `id`. */
  function FindById(s: seq<Article>, id: string): (r: Option<Article>)
    ensures r.None? <==> forall i | 0 <= i < |s| :: s[i].id != id
    ensures r.Some? ==> r.value in s && r.value.id == id
    ensures r.Some? ==> exists i | 0 <= i < |s| :: s[i] == r.value && s[i].id == id &&
                          forall j | 0 <= j < i :: s[j].id != id
  {
    if s == [] then None
    else if s[0].id == id then Some(s[0])
    else
      var r := FindById(s[1..], id);
      FirstMatchShifts(s, id, r);
      r
  }

  /** A first match in the tail is a first match of the whole sequence when
      the head does not match. */
  lemma FirstMatchShifts(s: seq<Article>, id: string, r: Option<Article>)
    requires s != [] && s[0].id != id
    requires r.Some? ==> exists i | 0 <= i < |s| - 1 :: s[1..][i] == r.value && s[1..][i].id == id &&
                           forall j | 0 <= j < i :: s[1..][j].id != id
    ensures r.Some? ==> exists i | 0 <= i < |s| :: s[i] == r.value && s[i].id == id &&
                          forall j | 0 <= j < i :: s[j].id != id
  {
    if r.Some? {
      var i :| 0 <= i < |s| - 1 && s[1..][i] == r.value && s[1..][i].id == id &&
               forall j | 0 <= j < i :: s[1..][j].id != id;
      assert s[i + 1] == r.value && forall j | 0 <= j < i + 1 :: s[j].id != id;
    }
  }

  /** `getArticleById`: the first article of the read view with this id. The
      fallback backfill of an empty topic never fires, because the view has
      already backfilled every topic. */
  function GetArticleById(slot: Slot, id: string): (r: Option<Article>)
    ensures r == FindById(GetArticles(slot), id)
    ensures r.None? <==> forall a | a in GetArticles(slot) :: a.id != id
    ensures r.Some? ==> r.value in GetArticles(slot) && r.value.id == id && HasTopic(r.value)
  {
    var articles := GetArticles(slot);
    var found := FindById(articles, id);
    match found
    case Some(article) =>
      if !Truthy(article.topic) then Some(article.(topic := Some(DefaultTopic))) else found
    case None => found
  }

  /** The distinct effective topics of a collection. */
  function EffectiveTopics(s: seq<Article>): set<string> {
    set a | a in s :: EffectiveTopic(a.topic)
  }

  lemma EffectiveTopicsSnoc(s: seq<Article>, a: Article)
    ensures EffectiveTopics(s + [a]) == EffectiveTopics(s) + {EffectiveTopic(a.topic)}
  {
    assert forall b :: b in s + [a] <==> b in s || b == a;
  }

  // ---------------------------------------------------------------------------
  // What the mutators compute
  // ---------------------------------------------------------------------------

  /** `saveArticles`: a write is dropped when there is no storage at all, and
      otherwise replaces whatever the key held. */
  function Saved(slot: Slot, articles: seq<Article>): (r: Slot)
    ensures slot.Unavailable? ==> r == slot
    ensures !slot.Unavailable? ==> r == Stored(articles)
  {
    if slot.Unavailable? then slot else Stored(articles)
  }

  /** The value an object spread leaves in a key: a key the caller supplied
      wins, even with `undefined`; otherwise the default. */
  function Spread<T>(given: Field<T>, default: T): (r: Option<T>)
    ensures given.Omitted? ==> r == Some(default)
    ensures given.Given? ==> r == given.value
  {
    match given
    case Omitted => Some(default)
    case Given(v) => v
  }

  /** The record `addArticle` builds: defaults, then the caller's fields, then
      the id, read flag and creation time, which the caller cannot override.
      `idClock` and `createdClock` are the two separate clock readings. */
  function NewArticle(d: NewArticleData, idClock: int, createdClock: int): (r: Article)
    ensures r.id == IntToDecimal(idClock) && r.isRead == false && r.createdAt == createdClock
    ensures r.url == d.url
    ensures d.headline.Omitted? ==> r.headline == Some("")
    ensures d.topic.Omitted? ==> r.topic == Some(DefaultTopic)
    ensures d.summary.Omitted? ==> r.summary == Some("")
    ensures d.estimatedTime.Omitted? ==> r.estimatedTime == Some(0)
    ensures d.headline.Given? ==> r.headline == d.headline.value
    ensures d.topic.Given? ==> r.topic == d.topic.value
    ensures d.summary.Given? ==> r.summary == d.summary.value
    ensures d.estimatedTime.Given? ==> r.estimatedTime == d.estimatedTime.value
  {
    Article(
      id := IntToDecimal(idClock),
      url := d.url,
      headline := Spread(d.headline, ""),
      topic := Spread(d.topic, DefaultTopic),
      estimatedTime := Spread(d.estimatedTime, 0),
      summary := Spread(d.summary, ""),
      isRead := false,
      createdAt := createdClock)
  }

  /** The shallow merge `{ ...article, ...updates }`: a field named in the
      update takes the given value, every other field keeps its value, and the
      id never changes. */
  function Merge(a: Article, u: ArticleUpdate): (r: Article)
    ensures r.id == a.id
    ensures r.url == (if u.url.Some? then u.url.value else a.url)
    ensures r.headline == (if u.headline.Given? then u.headline.value else a.headline)
    ensures r.topic == (if u.topic.Given? then u.topic.value else a.topic)
    ensures r.estimatedTime == (if u.estimatedTime.Given? then u.estimatedTime.value else a.estimatedTime)
    ensures r.summary == (if u.summary.Given? then u.summary.value else a.summary)
    ensures r.isRead == (if u.isRead.Some? then u.isRead.value else a.isRead)
    ensures r.createdAt == (if u.createdAt.Some? then u.createdAt.value else a.createdAt)
  {
    a.(url := if u.url.Some? then u.url.value else a.url,
       headline := if u.headline.Given? then u.headline.value else a.headline,
       topic := if u.topic.Given? then u.topic.value else a.topic,
       estimatedTime := if u.estimatedTime.Given? then u.estimatedTime.value else a.estimatedTime,
       summary := if u.summary.Given? then u.summary.value else a.summary,
       isRead := if u.isRead.Some? then u.isRead.value else a.isRead,
       createdAt := if u.createdAt.Some? then u.createdAt.value else a.createdAt)
  }

  /** The `map` in `updateArticle`: every article carrying `id` is merged,
      every other article is kept, in place. */
  function ApplyUpdate(s: seq<Article>, id: string, u: ArticleUpdate): (r: seq<Article>)
    ensures |r| == |s|
    ensures forall i | 0 <= i < |s| :: r[i] == if s[i].id == id then Merge(s[i], u) else s[i]
  {
    seq(|s|, i requires 0 <= i < |s| => if s[i].id == id then Merge(s[i], u) else s[i])
  }

  /** The `filter` in `deleteArticle`: the articles not carrying `id`, in order. */
  function WithoutId(s: seq<Article>, id: string): (r: seq<Article>)
    ensures forall a | a in r :: a in s && a.id != id
    ensures forall a | a in s && a.id != id :: a in r
    ensures (forall a | a in s :: a.id != id) ==> r == s
  {
    if s == [] then []
    else
      var rest := WithoutId(s[1..], id);
      assert s == [s[0]] + s[1..];
      if s[0].id == id then rest else [s[0]] + rest
  }

  /** The filter keeps every copy of an article without `id` and drops every
      copy of one with it. */
  lemma {:induction false} WithoutIdCount(s: seq<Article>, id: string)
    ensures forall a :: multiset(WithoutId(s, id))[a] == if a.id == id then 0 else multiset(s)[a]
  {
    if s != [] {
      WithoutIdCount(s[1..], id);
      assert s == [s[0]] + s[1..];
    }
  }

  /** The filter keeps relative order: the result is `s` read at a strictly
      increasing list of positions, and that list holds every position whose
      article does not carry `id`. */
  lemma {:induction false} WithoutIdKeepsOrder(s: seq<Article>, id: string) returns (idx: seq<nat>)
    ensures |idx| == |WithoutId(s, id)|
    ensures forall j | 0 <= j < |idx| :: idx[j] < |s| && WithoutId(s, id)[j] == s[idx[j]]
    ensures forall j, k | 0 <= j < k < |idx| :: idx[j] < idx[k]
    ensures forall i {:trigger i in idx} | 0 <= i < |s| && s[i].id != id :: i in idx
  {
    if s == [] {
      idx := [];
      return;
    }
    var tail := WithoutIdKeepsOrder(s[1..], id);
    var rest := WithoutId(s[1..], id);
    assert WithoutId(s, id) == if s[0].id == id then rest else [s[0]] + rest;
    idx := ConsPositions(s, id, rest, tail);
  }

  /** One step of the filter: the positions in `s` of the filter result,
      from the positions `tail` in `s[1..]` of the filtered rest. */
  lemma ConsPositions(s: seq<Article>, id: string, rest: seq<Article>, tail: seq<nat>) returns (idx: seq<nat>)
    requires s != []
    requires |tail| == |rest|
    requires forall j | 0 <= j < |tail| :: tail[j] < |s| - 1 && rest[j] == s[1..][tail[j]]
    requires forall j, k | 0 <= j < k < |tail| :: tail[j] < tail[k]
    requires forall i {:trigger i in tail} | 0 <= i < |s| - 1 && s[1..][i].id != id :: i in tail
    ensures var r := if s[0].id == id then rest else [s[0]] + rest;
            |idx| == |r| &&
            (forall j | 0 <= j < |idx| :: idx[j] < |s| && r[j] == s[idx[j]]) &&
            (forall j, k | 0 <= j < k < |idx| :: idx[j] < idx[k]) &&
            (forall i {:trigger i in idx} | 0 <= i < |s| && s[i].id != id :: i in idx)
  {
    var shifted := ShiftPositions(s, id, rest, tail);
    if s[0].id == id {
      idx := shifted;
      forall i | 0 <= i < |s| && s[i].id != id ensures i in idx {
        assert i != 0;
      }
    } else {
      idx := KeepHeadPosition(s, id, rest, shifted);
    }
  }

  /** With the first article kept, position 0 goes in front of the positions
      `shifted` at which `rest` is read from `s`. */
  lemma KeepHeadPosition(s: seq<Article>, id: string, rest: seq<Article>, shifted: seq<nat>) returns (idx: seq<nat>)
    requires s != [] && s[0].id != id
    requires |shifted| == |rest|
    requires forall j | 0 <= j < |shifted| :: 1 <= shifted[j] < |s| && rest[j] == s[shifted[j]]
    requires forall j, k | 0 <= j < k < |shifted| :: shifted[j] < shifted[k]
    requires forall i {:trigger i in shifted} | 1 <= i < |s| && s[i].id != id :: i in shifted
    ensures |idx| == |rest| + 1
    ensures forall j | 0 <= j < |idx| :: idx[j] < |s| && ([s[0]] + rest)[j] == s[idx[j]]
    ensures forall j, k | 0 <= j < k < |idx| :: idx[j] < idx[k]
    ensures forall i {:trigger i in idx} | 0 <= i < |s| && s[i].id != id :: i in idx
  {
    idx := [0] + shifted;
    forall j | 0 <= j < |idx| ensures idx[j] < |s| && ([s[0]] + rest)[j] == s[idx[j]] {
      if j > 0 {
        assert idx[j] == shifted[j - 1] && ([s[0]] + rest)[j] == rest[j - 1];
      }
    }
    forall i | 0 <= i < |s| && s[i].id != id ensures i in idx {
      if i == 0 {
        assert idx[0] == i;
      } else {
        assert i in shifted;
        var j :| 0 <= j < |shifted| && shifted[j] == i;
        assert idx[j + 1] == i;
      }
    }
  }

  /** The positions `tail` at which `rest` is read from `s[1..]`, renumbered
      as positions in `s`. */
  lemma ShiftPositions(s: seq<Article>, id: string, rest: seq<Article>, tail: seq<nat>) returns (shifted: seq<nat>)
    requires s != []
    requires |tail| == |rest|
    requires forall j | 0 <= j < |tail| :: tail[j] < |s| - 1 && rest[j] == s[1..][tail[j]]
    requires forall j, k | 0 <= j < k < |tail| :: tail[j] < tail[k]
    requires forall i {:trigger i in tail} | 0 <= i < |s| - 1 && s[1..][i].id != id :: i in tail
    ensures |shifted| == |rest|
    ensures forall j | 0 <= j < |shifted| :: 1 <= shifted[j] < |s| && rest[j] == s[shifted[j]]
    ensures forall j, k | 0 <= j < k < |shifted| :: shifted[j] < shifted[k]
    ensures forall i {:trigger i in shifted} | 1 <= i < |s| && s[i].id != id :: i in shifted
  {
    shifted := seq(|tail|, j requires 0 <= j < |tail| => tail[j] + 1);
    forall i | 1 <= i < |s| && s[i].id != id ensures i in shifted {
      assert s[1..][i - 1] == s[i];
      assert i - 1 in tail;
      var j :| 0 <= j < |tail| && tail[j] == i - 1;
      assert shifted[j] == i;
    }
  }

  /** Filtering keeps the newest-first order. */
  lemma {:induction false} WithoutIdNewestFirst(s: seq<Article>, id: string)
    requires NewestFirst(s)
    ensures NewestFirst(WithoutId(s, id))
  {
    if s != [] {
      WithoutIdNewestFirst(s[1..], id);
      var rest := WithoutId(s[1..], id);
      if s[0].id != id {
        forall j | 0 <= j < |rest| ensures s[0].createdAt >= rest[j].createdAt {
          assert rest[j] in s[1..];
        }
        NewestFirstCons(s[0], rest);
      }
    }
  }

  /** `Set.prototype.add` of an element not yet present keeps every element
      unique and adds exactly that element. */
  lemma AddToSet(seen: seq<string>, x: string)
    requires forall y :: multiset(seen)[y] <= 1
    requires x !in seen
    ensures forall y :: multiset(seen + [x])[y] <= 1
    ensures forall y :: y in seen + [x] <==> y in seen || y == x
  {
    assert multiset(seen + [x]) == multiset(seen) + multiset{x};
  }

  /** The `forEach` of `getUniqueTopics` filling a `Set`: each effective
      topic once, in order of first appearance. */
  method CollectTopics(articles: seq<Article>) returns (seen: seq<string>)
    ensures forall x :: multiset(seen)[x] <= 1
    ensures forall t :: t in seen <==> t in EffectiveTopics(articles)
  {
    seen := [];
    var i := 0;
    while i < |articles|
      invariant 0 <= i <= |articles|
      invariant forall x :: multiset(seen)[x] <= 1
      invariant forall t :: t in seen <==> t in EffectiveTopics(articles[..i])
    {
      EffectiveTopicsSnoc(articles[..i], articles[i]);
      assert articles[..i + 1] == articles[..i] + [articles[i]];
      var topic: string;
      if Truthy(articles[i].topic) {
        topic := articles[i].topic.value;
      } else {
        topic := DefaultTopic;
      }
      assert topic == EffectiveTopic(articles[i].topic);
      if topic !in seen {
        AddToSet(seen, topic);
        seen := seen + [topic];
      }
      i := i + 1;
    }
    assert articles[..i] == articles;
  }

  /** The slot `deleteArticle(id)` leaves behind: the read view without the
      articles carrying `id`, written back even when none did. */
  function AfterDelete(slot: Slot, id: string): Slot {
    Saved(slot, WithoutId(GetArticles(slot), id))
  }

  // ---------------------------------------------------------------------------
  // The store: the persisted slot and the operations that rewrite it
  // ---------------------------------------------------------------------------

  class ArticleStore {
    var slot: Slot

    constructor (initial: Slot)
      ensures slot == initial
    {
      slot := initial;
    }

    /** `saveArticles`. */
    method SaveArticles(articles: seq<Article>)
      modifies this
      ensures slot == Saved(old(slot), articles)
    {
      if slot.Unavailable? {
        return;
      }
      slot := Stored(articles);
    }

    /** `addArticle`: prepends the new record to the read view (not to the raw
        array) and writes the result back. */
    method AddArticle(d: NewArticleData, idClock: int, createdClock: int) returns (a: Article)
      modifies this
      ensures a == NewArticle(d, idClock, createdClock)
      ensures slot == Saved(old(slot), [a] + GetArticles(old(slot)))
      ensures !old(slot).Unavailable? ==> |slot.articles| == |GetArticles(old(slot))| + 1 && slot.articles[0] == a
    {
      var articles := GetArticles(slot);
      a := NewArticle(d, idClock, createdClock);
      SaveArticles([a] + articles);
    }

    /** `updateArticle`: merges `u` into every article carrying `id`, returns
        the last one merged, and writes back only when something matched. */
    method UpdateArticle(id: string, u: ArticleUpdate) returns (updated: Option<Article>)
      modifies this
      ensures var view := GetArticles(old(slot));
        && (updated.None? <==> forall i | 0 <= i < |view| :: view[i].id != id)
        && (updated.None? ==> slot == old(slot))
        && (updated.Some? ==> slot == Saved(old(slot), ApplyUpdate(view, id, u)))
        && (updated.Some? ==> exists i | 0 <= i < |view| :: view[i].id == id && updated.value == Merge(view[i], u) &&
                                forall j | i < j < |view| :: view[j].id != id)
    {
      var articles := GetArticles(slot);
      var merged: seq<Article> := [];
      updated := None;
      ghost var at := 0;
      var i := 0;
      while i < |articles|
        invariant 0 <= i <= |articles|
        invariant |merged| == i
        invariant forall j | 0 <= j < i :: merged[j] == if articles[j].id == id then Merge(articles[j], u) else articles[j]
        invariant updated.None? <==> forall j | 0 <= j < i :: articles[j].id != id
        invariant updated.Some? ==> 0 <= at < i && articles[at].id == id && updated.value == Merge(articles[at], u) &&
                                    forall j | at < j < i :: articles[j].id != id
      {
        if articles[i].id == id {
          updated := Some(Merge(articles[i], u));
          at := i;
          merged := merged + [updated.value];
        } else {
          merged := merged + [articles[i]];
        }
        i := i + 1;
      }
      assert merged == ApplyUpdate(articles, id, u);
      if updated.Some? {
        SaveArticles(merged);
      }
    }

    /** `deleteArticle`: writes back the read view without the articles
        carrying `id`; the write happens even when nothing matched. */
    method DeleteArticle(id: string)
      modifies this
      ensures slot == AfterDelete(old(slot), id)
    {
      var articles := GetArticles(slot);
      SaveArticles(WithoutId(articles, id));
    }

    /** `getUniqueTopics`: the distinct effective topics of the read view,
        collected into a set and then sorted with the default string order. */
    method GetUniqueTopics() returns (topics: seq<string>)
      ensures StrictlyAscending(topics)
      ensures forall t :: t in topics <==> t in EffectiveTopics(GetArticles(slot))
    {
      var articles := GetArticles(slot);
      var seen := CollectTopics(articles);
      topics := SortStrings(seen);
      SortedDistinctIsStrict(topics);
      forall t ensures t in topics <==> t in EffectiveTopics(articles) {
        assert t in topics <==> t in multiset(seen);
      }
    }
  }
}
