/** The article record persisted by the local store, and the partial records
    its callers pass in (src/lib/types.ts). */
module ArticleTypes {

  datatype Option<+T> = None | Some(value: T)

  /** One key of a TypeScript `Partial<...>` argument: the key is either not
      present at all, or present with a value that may itself be `undefined`
      (`Given(None)`). Object spread copies a present key even when its value
      is `undefined`. */
  datatype Field<+T> = Omitted | Given(value: Option<T>)

  /** An `Article`. Optional fields are `None` when absent or `undefined`;
      `createdAt` is the millisecond clock reading at creation. */
  datatype Article = Article(
    id: string,
    url: string,
    headline: Option<string>,
    topic: Option<string>,
    estimatedTime: Option<int>,
    summary: Option<string>,
    isRead: bool,
    createdAt: int)

  /** The argument of `addArticle`: `url` is required, the four descriptive
      fields may be omitted. */
  datatype NewArticleData = NewArticleData(
    url: string,
    headline: Field<string>,
    topic: Field<string>,
    summary: Field<string>,
    estimatedTime: Field<int>)

  /** The argument of `updateArticle`: any field but `id` may be named.
      For the required fields `None` means "not named". */
  datatype ArticleUpdate = ArticleUpdate(
    url: Option<string>,
    headline: Field<string>,
    topic: Field<string>,
    estimatedTime: Field<int>,
    summary: Field<string>,
    isRead: Option<bool>,
    createdAt: Option<int>)

  const DefaultTopic: string := "General"

  /** JavaScript truthiness of an optional string: present and non-empty. */
  predicate Truthy(s: Option<string>) {
    s.Some? && s.value != ""
  }

  /** The topic an article is shown and grouped under: `topic || 'General'`. */
  function EffectiveTopic(t: Option<string>): (r: string)
    ensures r != ""
    ensures Truthy(t) ==> r == t.value
    ensures !Truthy(t) ==> r == DefaultTopic
  {
    if Truthy(t) then t.value else DefaultTopic
  }

  /** An article whose topic is already in its read-time form. */
  predicate HasTopic(a: Article) {
    Truthy(a.topic)
  }

  /** The read-time backfill `{ ...article, topic: article.topic || 'General' }`. */
  function Normalise(a: Article): (r: Article)
    ensures HasTopic(r)
    ensures r.topic == Some(EffectiveTopic(a.topic))
    ensures r == a.(topic := r.topic)
    ensures HasTopic(a) ==> r == a
  {
    a.(topic := Some(EffectiveTopic(a.topic)))
  }

  /** `Normalise` applied to every element, keeping order. */
  function NormaliseAll(s: seq<Article>): (r: seq<Article>)
    ensures |r| == |s|
    ensures forall i | 0 <= i < |s| :: r[i] == Normalise(s[i])
  {
    seq(|s|, i requires 0 <= i < |s| => Normalise(s[i]))
  }
}
