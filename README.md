# cf-template server layer, modelled in Dafny

This project models the small server-side layer of the cf-template demo site. The layer sits on top of the platform's stores. Each store becomes an in-memory class:

- **Settings** (`src/routes/api/settings.ts`). A durable key/value store kept in the `setting:` namespace of one flat key-value keyspace, shared with other users such as the cache's `cache:` entries. GET lists the namespace and strips the prefix with `replace('setting:', '')`. POST stores `setting:${key}` without validation and echoes it with 201. DELETE needs a non-empty `key` query parameter (400 otherwise) and is idempotent.
- **Posts**. `src/routes/api/posts.ts` holds the HTTP handlers and `src/server/posts.ts` the server functions. Both do CRUD over the `posts` table. The handlers refuse a missing or whitespace-only title with 400 and map an unknown id on PUT to 404. The server functions do not validate, and answer null for a missing row. A post's life is nonexistent → active → nonexistent. Every operation leaves the other rows alone.
- **Contact** (`src/routes/api/contact.ts`). From the method, the four required fields and whether a database is bound, the handler decides a status code. It appends at most one row to `contacts`.
- **Business-plan access** (`checkAuth` in `src/routes/business-plan.tsx`). The regular expression `auth_token=([^;]+)` is modelled as functions on character sequences. A missing header or a missing token redirects to `/login`.

Files and modules:

| file | module | what |
|---|---|---|
| wrappers.dfy | `Wrappers` | `Option`, for JavaScript null/undefined and SQL NULL |
| strings.dfy | `Strings` | `indexOf`, `replace` with a string pattern, `trim` |
| settings.dfy | `Settings` | the KV namespace binding (`KvNamespace`) and the three settings handlers |
| posts_table.dfy | `PostsTable` | the `Post` row and the `posts` table (`Posts`) with its five SQL statements |
| posts_api.dfy | `PostsApi` | the four `/api/posts` handlers |
| posts_server.dfy | `PostsServer` | `toPost` and the five server functions, plus a client method `Lifecycle` that walks one post through its states using only the contracts |
| contact.dfy | `Contact` | the `contacts` table and the contact handler |
| auth.dfy | `BusinessPlanAuth` | the cookie token extraction and `checkAuth` |

The handlers' inputs are the parsed request, as values:

- query parameters, the posts handlers' `title` and `content`, and the contact fields are `Option`s, with None for absent or null. Settings POST's `key` and `value` and the server functions' `title` are plain strings, and PUT's `id` and the server functions' ids are integers. "## Left out" says what those types leave out;
- the store handle is an object;
- the current time is a parameter `now`, for `CURRENT_TIMESTAMP` and `datetime('now')`.

Each handler returns a `Reply(status, body)`. The body is a datatype with one constructor per JSON shape the handler sends.

## Model

| member | source | states |
|---|---|---|
| `Strings.IndexOf` | src/routes/api/settings.ts:12 | the result is -1 exactly when the pattern occurs nowhere; otherwise the pattern occurs there and at no earlier index |
| `Strings.RemoveFirstOfPrefix` | src/routes/api/settings.ts:12 | `replace(p, '')` on a string that starts with `p` removes exactly that leading `p`, whatever later occurrences there are |
| `Strings.TrimStart` | src/routes/api/posts.ts:20 | the result is a suffix of the input; everything dropped is whitespace; the result does not start with whitespace |
| `Strings.TrimEnd` | src/routes/api/posts.ts:20 | the result is a prefix of the input; everything dropped is whitespace; the result does not end with whitespace |
| `Strings.TrimEmptyIffBlank` | src/routes/api/posts.ts:20 | `s.trim()` is empty if and only if every character of `s` is ECMAScript whitespace or a line terminator |
| `Settings.StorageKey` | src/routes/api/settings.ts:24 | the physical key starts with `setting:` and what follows it is the caller's key |
| `Settings.DisplayKeyOfListed` | src/routes/api/settings.ts:12 | a listed key in the namespace is shown as its part after `setting:`, and storing under the shown key gives back the same physical key |
| `Settings.KeyRoundTrip` | src/routes/api/settings.ts:12 | every key written by POST is shown unchanged by GET, including keys that themselves contain `setting:` |
| `Settings.ListedSetting` | src/routes/api/settings.ts:11-14 | a GET element carries the stripped key and the value read; a value gone at read time shows as `''` |
| `Settings.KvNamespace.List` | src/routes/api/settings.ts:9 | `kv.list({prefix})` yields every stored key with the prefix, each exactly once, and nothing else |
| `Settings.KvNamespace.Get` | src/routes/api/settings.ts:13 | `kv.get` yields the stored value, or None for an absent key |
| `Settings.KvNamespace.Put` | src/routes/api/settings.ts:24 | `kv.put` maps the key to the value and changes no other entry |
| `Settings.KvNamespace.Delete` | src/routes/api/settings.ts:34 | `kv.delete` removes the key, and is a no-op when it is absent |
| `Settings.HandleGet` | src/routes/api/settings.ts:7-16 | 200 with exactly one `{key, value}` per stored `setting:` key, holding its stripped key and its value; keys are distinct and no key from another namespace appears |
| `Settings.HandlePost` | src/routes/api/settings.ts:18-26 | the keyspace afterwards is the old one with `setting:${key}` mapped to `value` (an empty key gives the bare `setting:`); the reply is 201 echoing `{key, value}` |
| `Settings.DeleteTarget` | src/routes/api/settings.ts:30-34 | there is no target exactly when the `key` parameter is missing or empty (`!key`); otherwise the target is the physical key in the namespace that GET shows as the requested `key`, and it is never the bare `setting:`, the key POST uses for the empty key, so that entry cannot be deleted through the API |
| `Settings.HandleDelete` | src/routes/api/settings.ts:27-36 | a missing or empty key gives 400 `Key required` and no change; otherwise `setting:${key}` is gone and the reply is `{deleted: true}`, whether or not it existed |
| `Settings.PutThenList` | src/routes/api/settings.ts:24 | after POST `{key, value}`, any GET response for the new keyspace contains `{key, value}` |
| `Settings.DeleteThenList` | src/routes/api/settings.ts:34 | after DELETE of `key`, no element of a GET response has that key |
| `Settings.OtherNamespaceInvisible` | src/routes/api/settings.ts:9 | writing a key outside `setting:` does not change which responses are valid GET responses |
| `Settings.OtherNamespaceRemovalInvisible` | src/routes/api/settings.ts:9 | removing a key outside `setting:` does not change which responses are valid GET responses |
| `Settings.CacheKeysOutsideNamespace` | src/routes/api/settings.ts:9 | a `cache:` key is never in the settings namespace |
| `Settings.CacheWriteInvisible` | src/routes/api/settings.ts:9 | the cache's write of any `cache:${key}` entry leaves the set of valid GET responses of the settings store unchanged |
| `Settings.CacheDeleteInvisible` | src/routes/api/settings.ts:9 | the cache route's (`src/routes/api/cache.$.ts`) delete of any `cache:${key}` entry leaves the set of valid GET responses of the settings store unchanged |
| `PostsTable.InsertionPoint` | src/routes/api/posts.ts:10 | in a newest-first sequence, every row before the point is at least as new as `p` and every row after it is strictly older |
| `PostsTable.InsertionKeepsOrder` | src/routes/api/posts.ts:10 | placing a row at its insertion point keeps the sequence ordered by `created_at` descending and keeps ids distinct |
| `PostsTable.Posts.SelectNewestFirst` | src/routes/api/posts.ts:9-11 | the result is ordered by `created_at` descending, holds each row of the table exactly once, and holds nothing else |
| `PostsTable.Posts.SelectById` | src/server/posts.ts:34-38 | the row with that id, or None when no row has it |
| `PostsTable.Posts.Insert` | src/routes/api/posts.ts:23-26 | adds one row under an id no row had, with the given title and content and both timestamps `now`; other rows are unchanged |
| `PostsTable.Posts.UpdateById` | src/routes/api/posts.ts:39-44 | for an absent id: None and no change; otherwise that row gets the new title, content and `updated_at`, keeps its id and `created_at`, and no other row changes |
| `PostsTable.Posts.DeleteById` | src/routes/api/posts.ts:57 | afterwards no row has the id, and the other rows are unchanged |
| `PostsApi.HasTitle` | src/routes/api/posts.ts:20 | `title?.trim()` is truthy if and only if the title is present and not all whitespace |
| `PostsApi.HandleGet` | src/routes/api/posts.ts:7-13 | 200 with every row exactly once, newest first |
| `PostsApi.HandlePost` | src/routes/api/posts.ts:14-28 | a missing or blank title gives 400 `Title is required` and no insert; otherwise 201 with one new row under a fresh id, the title untrimmed, the content as given or null, and no other row changed |
| `PostsApi.HandlePut` | src/routes/api/posts.ts:29-49 | the title check comes first, so 400 even for an unknown id; then 404 `Post not found` with no change for an unknown id; otherwise 200 with only that row's title, content and `updated_at` changed |
| `PostsApi.RowIdOfNumeral` | src/routes/api/posts.ts:57 | `RowIdOf`, which models how the text `id` parameter is matched against the integer `id` column, selects row `n` for the decimal numeral of `n` with any number of leading zeros; so `?id=` followed by a row's id deletes that row |
| `PostsApi.HandleDelete` | src/routes/api/posts.ts:50-59 | a missing or empty id gives 400 `ID required`; otherwise the selected row, if any, is removed, and the reply is `{success: true}` either way |
| `PostsServer.ToPost` | src/server/posts.ts:12-20 | the copy equals the row: `toPost` is the identity |
| `PostsServer.GetPosts` | src/server/posts.ts:22-28 | every row exactly once, ordered by `created_at` descending |
| `PostsServer.GetPost` | src/server/posts.ts:30-39 | the row with that id, or null |
| `PostsServer.CreatePost` | src/server/posts.ts:41-52 | never null; without any title check, inserts `{title, content ?? null}` under a fresh id and returns that row |
| `PostsServer.UpdatePost` | src/server/posts.ts:54-65 | null and no change for an absent id; otherwise the row with the new title and content (null when omitted) and a new `updated_at` |
| `PostsServer.DeletePost` | src/server/posts.ts:67-73 | always `{success: true}`; afterwards no row has the id, and other rows are unchanged |
| `Contact.Contacts.Insert` | src/routes/api/contact.ts:42-48 | the insert appends exactly the row, or fails when the store is unreachable and changes nothing |
| `Contact.Handle` | src/routes/api/contact.ts:12-61 | a non-POST method gives 405; a body that cannot be read as JSON, or is `null`, gives 500; a missing or empty field gives 400, while whitespace-only fields pass; valid input with no database gives 200 and stores nothing; with a database, exactly one row with the four fields is appended and the reply is 200, or 500 with nothing stored when the insert fails |
| `BusinessPlanAuth.RunEnd` | src/routes/business-plan.tsx:14 | the greedy `[^;]+` run stops at the first `;` or at the end |
| `BusinessPlanAuth.FirstMatchFrom` | src/routes/business-plan.tsx:14 | the leftmost index at which `auth_token=` is followed by a non-`;` character, or None when there is no such index |
| `BusinessPlanAuth.TokenOf` | src/routes/business-plan.tsx:14-15 | a token exists if and only if the expression matches somewhere; the token is non-empty, holds no `;`, and is the maximal run after the leftmost match |
| `BusinessPlanAuth.CheckAuth` | src/routes/business-plan.tsx:6-22 | the result is authenticated if and only if a cookie header is present and matches; every other outcome is a redirect to `/login`; the token's value is not checked further |
| `BusinessPlanAuth.CaptureUnique` | src/routes/business-plan.tsx:14 | the capture starting at a given index is unique |
| `BusinessPlanAuth.LeadingToken` | src/routes/business-plan.tsx:14 | `auth_token=T` followed by the end or by `;` yields exactly `T` |
| `BusinessPlanAuth.UnanchoredMatch` | src/routes/business-plan.tsx:14 | the match is unanchored: `xauth_token=T` yields `T` |
| `BusinessPlanAuth.EmptyTokenRedirects` | src/routes/business-plan.tsx:17-19 | `auth_token=` followed by `;` is no match at that index, and the header `auth_token=` alone redirects to `/login` |

Three behaviours of the code are worth spelling out:

- Settings DELETE refuses an empty `key` as well as a missing one, because the test is `!key`.
- Only the HTTP handlers check a post's title, with `trim`, and they store it untrimmed. `createPost` and `updatePost` accept any title, even an empty one.
- No order holds between `updated_at` and `created_at`. Both come from the store's clock, which the model takes as its `now` parameter.

## Left out

- The cache endpoint (`src/routes/api/cache.$.ts`) and its get-or-compute and TTL behaviour are not part of this model. Only its `cache:` key prefix appears, in `Settings.CacheKeysOutsideNamespace`, `Settings.CacheWriteInvisible` and `Settings.CacheDeleteInvisible`.
- `Settings.HandleGet`: the real `kv.list` returns at most 1000 keys per call, with a cursor that the handler never follows. The contract promises every key, so it holds only for namespaces of up to 1000 keys.
- `Settings.KvNamespace.List`: the key-value store lists keys in lexicographic order. The model leaves the order unspecified, and so the order of the GET response is not modelled.
- Parallel reads (`Promise.all`), races between requests and eventual consistency are left out. The model's reads are sequential, so `Settings.ListedSetting`'s `''` case never arises inside `Settings.HandleGet`.
- `PostsTable.Posts.Insert`: the `posts` schema is not part of this model. Without `AUTOINCREMENT`, SQLite may give the largest deleted id to the next insert. The model draws ids from its own counter `nextId`, and so the contract promises only an id that no current row has.
- Timestamps are abstract integers passed in as `now`. Their text format and one-second resolution are left out.
- Request bodies that are not valid JSON make `request.json()` throw. In the settings and posts handlers nothing catches that, so the framework answers with an error. The contact handler's own `try`/`catch` maps it to 500, and the model covers that case.
- JSON fields that are not strings are left out: every field in the model is a string or absent. In the source they are not errors:
  - A settings POST with a non-string `key` stores under its string form. For example, `{key: 5}` is stored under `setting:5` and answered with 201. A non-string `value` is handed to the store as it is.
  - A `title` that is neither a string nor `null` makes `title?.trim()` throw, and nothing catches it. A non-string `content` in posts POST or PUT is bound and stored as it is.
  - The contact handler tests its four fields for JavaScript truthiness. So `0` and `false` give 400, while `5`, `true` or an object pass and reach the insert. The model's `Truthy` covers only strings and absence.
- A settings POST with no `key` at all stores under the literal `setting:undefined`. This is left out, because the model's key is always a string.
- `PostsApi.HandleDelete`: SQLite's numeric conversion of the `id` query parameter is narrowed to unsigned decimal numerals. Other forms that SQLite might convert, such as `+5`, ` 5` or `5.0`, select no row in the model.
- The PUT body's `id` is taken as an integer. A missing or non-numeric `id` is left out.
- Store failures of the posts table and the settings namespace are left out. There they surface as unhandled errors. For `contacts`, the store is modelled as reachable or not.
- The `null` branch of `createPost` is left out: `INSERT … RETURNING *` always yields the row, so `PostsServer.CreatePost` always returns one.
- Console logging in the contact handler is left out. So is the route's `methods: ['POST']` list, which may keep other methods from reaching the handler at all; the handler's own 405 branch is modelled as written.
- `getRequestHeaders`, the thrown `redirect`, `createServerFn`, the identity `inputValidator`s and `Response.json` are framework plumbing and are left out. Several `Cookie` headers joined into one are also left out.
- JavaScript strings are UTF-16 code units, while the model's characters are Unicode scalar values. For `[^;]`, `trim` and prefix tests the two agree, because every character involved is in the Basic Multilingual Plane.
