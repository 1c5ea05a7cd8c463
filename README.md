# Personal reading assistant: article store and topic unification, in Dafny

This project models two parts of a read-it-later web app. It states and
proves what each part does.

1. **The local article store** (`src/lib/storage.ts`). The app keeps all
   saved articles as one JSON array under the browser storage key
   `offline-articles`.
   - `getArticles` reads the array. It fills an empty or missing `topic`
     with `"General"` and sorts newest first with a stable sort. When there
     is no storage, no key, or text that does not parse, it returns an empty
     list.
   - `addArticle`, `updateArticle` and `deleteArticle` each read that view,
     rebuild it and write the whole array back (`updateArticle` only when
     some article has the id).
   - `getArticleById` and `getUniqueTopics` are derived from the view.
2. **The deterministic part of topic unification**
   (`src/ai/flows/unify-topics.ts`). With fewer than two topics the flow
   returns the identity map and makes no model request. Otherwise it returns
   the model's string-to-string record unchanged.

Files:

- `Types.dfy` (module `ArticleTypes`): the `Article` record. It also holds
  the partial records that callers pass in (`Field` tells an omitted key
  apart from a key present with `undefined`), and the `topic || 'General'`
  rule.
- `JsText.dfy` (module `JsText`): the two JavaScript built-ins the store
  uses on text. One is `Number#toString`, which turns the clock reading into
  the new id. The other is the default string order of `Array#sort`.
- `Storage.dfy` (module `Storage`): the persisted slot, the stable
  newest-first sort, the readers as functions, and the class
  `ArticleStore`. The class has one field, `slot`, and its mutators rewrite
  that field.
- `StorageProperties.dfy`: laws that relate several store operations.
- `UnifyTopics.dfy`: the unification flow. Model requests are recorded by a
  `TopicPrompt` object.

The storage slot has four states:

- `Unavailable`: no `localStorage`. Reads return empty and writes are
  dropped.
- `Missing`: the key is absent or holds `""`.
- `Corrupt`: the text does not parse as an article array.
- `Stored(articles)`: a parsed array.

The clock is passed in as two parameters. `addArticle` reads `Date.now()`
twice: once for `id` and once for `createdAt`.

Behaviours of the code that the model keeps as written:

- `updateArticle` accepts `createdAt`, because its parameter type omits only
  `id` (src/lib/storage.ts:72). `Merge` lets an update set it, so an update
  can move an article in the newest-first order.
- Every mutator rebuilds the array from `getArticles`, so the articles carried
  over from the previous read are stored in read-back form: topic backfilled
  and newest first (`PersistedViewReadsBack`). The records a call brings in
  are stored as supplied. `addArticle` stores the topic its caller passes,
  and the add form passes `''` by default (src/app/(app)/add/page.tsx:52 and
  :87), because the spread at src/lib/storage.ts:49 overrides the
  `'General'` default. An update can blank a topic or move `createdAt`. The
  next read backfills and re-sorts these records (`BlankedTopicReadsAsGeneral`).
- The output schema (src/ai/flows/unify-topics.ts:19) and the prompt
  (src/ai/flows/unify-topics.ts:41) ask that every input topic be a key and
  that a unique topic map to itself. On the short-circuit path every topic is
  a key because the flow builds the map from the list. On the model path the
  flow returns the model's record and nothing checks its keys.
- `deleteArticle` writes the view back even when no article has the id
  (src/lib/storage.ts:90-94). A corrupt or missing slot therefore becomes an
  empty stored array, and a raw stored array becomes its backfilled, sorted
  form.

## Model

| member | source | states |
|---|---|---|
| ArticleTypes.EffectiveTopic | src/lib/storage.ts:25 | the effective topic is never empty: a non-empty topic is kept, and an absent or empty one becomes "General" |
| ArticleTypes.NormaliseAll | src/lib/storage.ts:23-26 | the `map` keeps the length and backfills each article at its own position |
| ArticleTypes.Normalise | src/lib/storage.ts:23-26 | the backfill changes only `topic`, always leaves a non-empty topic, and leaves an article that already has one unchanged |
| JsText.IntToDecimal | src/lib/storage.ts:50 | the id text is non-empty and starts with a digit exactly when the clock reading is non-negative, and with '-' exactly when it is negative |
| JsText.NatDigits | src/lib/storage.ts:50 | decimal digits only, with no leading zero except for 0 itself |
| JsText.DecimalRoundTrip | src/lib/storage.ts:50 | parsing the id text gives back the clock reading |
| JsText.DecimalInjective | src/lib/storage.ts:50 | two clock readings give the same id text exactly when they are equal |
| JsText.StrLessTransitive | src/lib/storage.ts:106 | the default string order of `sort()` is transitive |
| JsText.StrLessTotal | src/lib/storage.ts:106 | any two different strings are ordered one way or the other |
| JsText.SortStrings | src/lib/storage.ts:106 | `sort()` with no comparator returns a permutation of its input in non-decreasing string order |
| JsText.SortedDistinctIsStrict | src/lib/storage.ts:98-106 | a sorted list without duplicates, such as the contents of a Set, is strictly ascending |
| Storage.InsertNewestFirst | src/lib/storage.ts:28 | inserting into a newest-first list keeps it newest first and adds exactly that article |
| Storage.InsertKeepsTies | src/lib/storage.ts:28 | the inserted article goes ahead of the articles with the same `createdAt`, and their order is kept (stability) |
| Storage.SortNewestFirst | src/lib/storage.ts:28 | the sort by `b.createdAt - a.createdAt` is a permutation, newest first, and keeps input order among equal `createdAt` |
| Storage.GetArticles | src/lib/storage.ts:15-33 | the result is empty when storage is unavailable, the key is missing or the data is corrupt; on a stored array it has the same length, is a permutation of the backfilled articles, is newest first, keeps stored order on ties, and every topic is non-empty |
| Storage.FindById | src/lib/storage.ts:62 | `find` returns the first article with the id, or none exactly when no article has it |
| Storage.GetArticleById | src/lib/storage.ts:60-70 | the result is the first article of the view with the id, absent exactly when none has it, and always has a non-empty topic, so the backfill branch never fires |
| Storage.Saved | src/lib/storage.ts:35-40 | a write is dropped without storage and otherwise replaces whatever the key held |
| Storage.Spread | src/lib/storage.ts:44-49 | a key the caller supplied wins over the default, even with `undefined` |
| Storage.NewArticle | src/lib/storage.ts:44-53 | the new record has `isRead` false, `createdAt` equal to the clock, and `id` equal to the decimal clock text; `url` and any supplied field come from the caller; omitted fields default to '' / 'General' / '' / 0 |
| Storage.Merge | src/lib/storage.ts:77 | the shallow merge changes exactly the fields the update names, and never the id |
| Storage.ApplyUpdate | src/lib/storage.ts:75-81 | length and order are kept, articles with the id are merged, and every other article is unchanged |
| Storage.WithoutId | src/lib/storage.ts:92 | the filter result holds only articles without the id, holds every article of the input without it, and is the input itself when no article has the id |
| Storage.WithoutIdCount | src/lib/storage.ts:92 | the filter drops every copy of an article with the id and keeps every copy of each other article, so counts are kept |
| Storage.WithoutIdKeepsOrder | src/lib/storage.ts:92 | the filter result is the input read at strictly increasing positions, and those positions include every article without the id, so relative order is kept |
| Storage.WithoutIdNewestFirst | src/lib/storage.ts:92 | filtering keeps the newest-first order |
| Storage.ArticleStore.SaveArticles | src/lib/storage.ts:35-40 | the new slot is the old one when storage is unavailable, and otherwise the given array |
| Storage.ArticleStore.AddArticle | src/lib/storage.ts:42-58 | returns `NewArticle` of the input and the clocks, and stores it in front of the old view: the length grows by one and the new article is at index 0 |
| Storage.ArticleStore.UpdateArticle | src/lib/storage.ts:72-88 | returns none and writes nothing exactly when no article in the view has the id; otherwise it stores the view with every matching article merged and returns the last one merged |
| Storage.ArticleStore.DeleteArticle | src/lib/storage.ts:90-94 | stores the view without the articles that have the id |
| Storage.CollectTopics | src/lib/storage.ts:98-105 | the `forEach` into a `Set` yields each effective topic of the articles exactly once, and nothing else |
| Storage.ArticleStore.GetUniqueTopics | src/lib/storage.ts:96-107 | returns a strictly ascending list whose elements are exactly the effective topics of the view |
| StorageProperties.StableNewestFirstIsUnique | src/lib/storage.ts:28 | two newest-first orderings that order every tie the same way are equal, so a stable sort has exactly one result |
| StorageProperties.GetArticlesIsTheStableOrder | src/lib/storage.ts:23-28 | any newest-first ordering of the backfilled articles that keeps stored order on ties is exactly what `getArticles` returns |
| StorageProperties.SortKeepsSorted | src/lib/storage.ts:28 | sorting an already newest-first list returns it unchanged |
| StorageProperties.PersistedViewReadsBack | src/lib/storage.ts:23-28 | a newest-first array whose topics are all set is read back unchanged; this is the form in which the articles carried over from the previous read are stored |
| StorageProperties.WriteBackKeepsView | src/lib/storage.ts:35-40 | writing back the read view leaves the next read unchanged |
| StorageProperties.DeleteView | src/lib/storage.ts:90-94 | after a delete, the view is the old view without that id, in the same order |
| StorageProperties.DeleteIdempotent | src/lib/storage.ts:90-94 | deleting an id twice leaves the same stored slot as deleting it once |
| StorageProperties.DeleteMissingIdKeepsView | src/lib/storage.ts:90-94 | deleting an id that no article has leaves the view unchanged |
| StorageProperties.AddedArticleLeadsItsTies | src/lib/storage.ts:52-56 | after an add, the new article is read back ahead of every article with the same `createdAt`, and those keep their order |
| StorageProperties.AddThenGetById | src/lib/storage.ts:42-69 | after an add, looking up the new id returns the created record with only its topic backfilled, if that id was not already taken |
| StorageProperties.AddGrowsViewByOne | src/lib/storage.ts:55-56 | an add grows the view by exactly one article |
| StorageProperties.UpdateKeepsView | src/lib/storage.ts:72-88 | an update that leaves `createdAt` and a non-empty topic in place is read back exactly as written: same length, same order, other articles unchanged |
| StorageProperties.BlankedTopicReadsAsGeneral | src/lib/storage.ts:25 | an update that sets the topic to empty or `undefined` is read back with topic "General" |
| StorageProperties.ViewTopicsAreStoredTopics | src/lib/storage.ts:96-105 | the effective topics of the view are the effective topics of the stored records |
| UnifyTopics.TopicPrompt.Run | src/ai/flows/unify-topics.ts:62 | one model request is recorded, and its answer is returned |
| UnifyTopics.IdentityMap | src/ai/flows/unify-topics.ts:56-59 | the keys are exactly the input topics and each maps to itself; an empty input gives the empty map, and one topic gives a one-entry map |
| UnifyTopics.UnifyTopicsFlow | src/ai/flows/unify-topics.ts:53-64 | with fewer than two topics, no model request is made and the identity map is returned; otherwise exactly one request is made and its answer is returned unchanged |

## Left out

- Browser storage detection, `JSON.parse` and `JSON.stringify` are folded into the four slot states. Nothing checks that the parsed elements have the Article shape, and JSON round trips are not modelled.
- Storage.Saved, Storage.ArticleStore.SaveArticles and Storage.GetArticles: exceptions from the browser are not modelled. `setItem` (src/lib/storage.ts:39) throws when the quota is exceeded, and nothing catches it, so `addArticle`, `updateArticle` and `deleteArticle` then throw and store nothing. Reading `window.localStorage` (src/lib/storage.ts:9) can throw a SecurityError outside the `try`, so `getArticles` then throws instead of returning an empty list.
- `console.error` logging and `async`/`await` are left out. Concurrent writers, such as two browser tabs, are also left out: the model is one sequence of calls.
- `Date.now()` becomes the parameters `idClock` and `createdClock`. Unique ids are not proved, because two adds in the same millisecond get the same id.
- Numbers are unbounded integers. NaN, fractional timestamps and the exponent form that `toString` uses from 10^21 up are not modelled.
- JsText.StrLess: compares Unicode code points, whereas JavaScript compares UTF-16 code units. The two orders differ only between characters outside the Basic Multilingual Plane and characters U+E000 to U+FFFF.
- In an update, passing `undefined` explicitly for `url`, `isRead` or `createdAt` is not modelled, because the result would break the Article type.
- UnifyTopics.TopicPrompt.Run: failures are not modelled. A thrown model call and the null output that `output!` lets through are outside the model. Run always returns a record.
- The prompt asks the model to keep every input key and to map unique topics to themselves. The code never checks either, so neither is proved.
- In the identity map, a topic named `__proto__` does not create a key in JavaScript. The model treats it like any other key.
- src/ai/flows/generate-article-metadata.ts is not part of this model: it is a prompt and a model call.
- src/app/actions.ts is not part of this model: it only wraps that call in a success/error envelope.
- src/ai/flows/unify-topics-types.ts is not part of this model: it repeats the schema declarations.
- The UI pages and components, and next.config.js, are not part of this model: they contain no store or flow logic.
