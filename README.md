# Webhook registry

A Dafny model of the webhook registry in `app.py`. This is a small Flask service:

- a user creates named webhooks, each with a random 32-character token;
- external systems deliver HTTP requests to `/webhook/<name>`;
- every accepted delivery is stored as a log entry;
- a webhook can be switched off or deleted together with its logs;
- the recent logs of a webhook and the list of active webhooks can be read back.

The model has six modules:

| module | file | what it holds |
|---|---|---|
| `Tables` | `tables.dfy` | The rows of the `webhook` and `webhook_log` tables. How the database hands out the id of a new row. The generic `Filter` and `Distinct` on sequences. |
| `Text` | `text.dfy` | Python's `str.strip()`, applied to the submitted name. |
| `Tokens` | `tokens.dfy` | `generate_token`, with the random picks as a parameter. |
| `Queries` | `queries.dfy` | The read-only lookups and queries: by name, by id, the 50 newest logs, the active listing. |
| `Ingestion` | `ingestion.dfy` | The request, the header lookup, the Bearer-token rule and the reply of `receive_webhook`. |
| `Registry` | `registry.dfy` | The class `WebhookStore`: the two tables as `seq` fields, and the four handlers that change them as methods. Also the table invariant and the lemmas that each handler keeps it. |

`WebhookStore.Valid()` is the invariant every handler preserves:

- ids, names and tokens of webhooks are unique;
- every webhook has a stripped, non-empty name and a 32-character alphanumeric token;
- log ids are unique;
- every log refers to an existing webhook.

Parameters stand in for what the handlers take from their environment:

- The random source of `secrets.choice` is `draws`: the alphabet indices picked, one per token position.
- The clock is a natural number. It is `now` for the stored timestamp; `Receive` also takes `repliedAt` for the timestamp in its reply, because app.py reads the clock a second time there.
- A failing `commit` is the flag `commitFails`. When it is set the handler rolls back: the store is unchanged and the error outcome is returned.

Behaviour of `app.py` worth noting:

- Names are unique across the whole registry. There is no owner.
- A generated token that collides with an existing one is not redrawn. The unique constraint makes the commit fail, so `Create` reports `CreateFailed`.
- The token check is plain string inequality (`!=`).
- A header sent more than once reaches the handler as one value: the WSGI server joins the values with commas. So when two `Authorization` headers are sent, a first one of `"Bearer "` plus the right token is still refused.
- An `Authorization` header that is absent, or does not start with exactly `"Bearer "`, lets the delivery through. This includes `"bearer x"` and a bare `"Bearer"`.
- New row ids are one more than the largest id in the table, as SQLite assigns an `INTEGER PRIMARY KEY` without `AUTOINCREMENT`. So the id of a deleted last row is handed out again.

## Model

| member | source | states |
|---|---|---|
| Tokens.GenerateToken | app.py:84-87 | The token has exactly `length` characters, each an ASCII letter or digit. |
| Tokens.EveryTokenIsGenerable | app.py:84-87 | Conversely, every alphanumeric string of that length is produced by some sequence of picks, so the alphabet is exactly letters and digits. |
| Tokens.IndexOf | app.py:86 | Every letter and digit has a position in `ascii_letters + digits`, and the alphabet holds that character there. |
| Text.Strip | app.py:98 | The result is the infix left after the leading and trailing whitespace is removed. It is empty exactly when the input is all whitespace; otherwise it starts and ends with a non-space. |
| Text.StripIdempotent | app.py:98 | Stripping a stripped name changes nothing. So the stored name is a fixed point of `strip`. |
| Tables.NextRowId | app.py:43 | A new row's id is at least 1 and larger than every id in the table. It is exactly one more than the largest id, or 1 in an empty table. |
| Tables.Filter | app.py:50 | Keeps exactly the elements satisfying the predicate: membership iff, and each element's multiplicity is preserved or dropped to 0. |
| Tables.FilterConcat | app.py:50 | Filtering a concatenation is the concatenation of the filtered parts, so the kept rows stay in table order. |
| Tables.FilterKeepsDistinct | app.py:43-45 | Removing rows keeps a unique column unique. |
| Queries.FindActiveByName | app.py:135 | Finds the first row with the given name whose `is_active` is set. It returns None exactly when no such row exists. |
| Queries.NameTaken | app.py:105-106 | Holds exactly when some webhook, active or not, has the name. |
| Queries.TokenTaken | app.py:45 | Holds exactly when some webhook already has the token, which the unique constraint refuses. |
| Queries.LogsOf | app.py:129 | Exactly the logs whose `webhook_id` is the given id, each with its multiplicity in the table. |
| Queries.FindById | app.py:182 | Finds a row with the given id. It returns None (get_or_404's 404) exactly when no webhook has that id. |
| Queries.SortNewestFirst | app.py:129 | The result is ordered by timestamp, descending, and is a permutation of the input. |
| Queries.RecentLogs | app.py:129 | Only logs of the given webhook appear, newest first, and no log appears more often than in the table. There are min(50, number of that webhook's logs) of them. |
| Queries.RecentLogsAreTheNewest | app.py:129 | No omitted log of the webhook is newer than a shown one. When the webhook has at most 50 logs, all of them are shown. |
| Queries.ListAll | app.py:213-218 | The comprehension gives one entry per row, position by position: the row's id, name and creation time. |
| Queries.ActiveListing | app.py:210-218 | Position by position, the list is the id, name and creation time of the active webhooks in table order: one entry for each, and none for an inactive one. |
| Queries.ActiveListingMembers | app.py:212-218 | Every active webhook is listed, and every listed entry is an active webhook. |
| Ingestion.MatchingValues | app.py:141 | The values of the headers whose name matches without regard to ASCII case; there are none exactly when no header matches. Their order and count are fixed by `MatchingValuesConcat`. |
| Ingestion.MatchingValuesConcat | app.py:141 | The values of two runs of headers are those of the first followed by those of the second. With the one-header case, the values come one per matching header, in the order received. |
| Ingestion.HeaderValue | app.py:141 | None exactly when no header has the name. Otherwise all values of that name, joined with commas, as the WSGI server folds a repeated header. |
| Ingestion.JoinWithCommas | app.py:141 | The folded value starts with the first value, and is that value when there is only one. |
| Ingestion.SingleHeaderValue | app.py:141 | A header sent once is read back exactly as sent. |
| Ingestion.SplitJoin | app.py:141 | When no value contains a comma, splitting the folded value on commas gives the values back. |
| Ingestion.RepeatedAuthorizationIsRefused | app.py:141-145 | With two Authorization headers the check sees `"Bearer " + token + "," + other`, so the delivery is refused even when the first carries the token. |
| Ingestion.TokenAccepted | app.py:141-145 | A delivery is refused exactly when the header value is `"Bearer "` followed by a string different from the webhook's token. |
| Registry.TablesValid | app.py:43-45 | Under the invariant, a row's id, name and token each determine the row, and every log's `webhook_id` finds a webhook. `WebhookStore.Valid` is this invariant on the store's two tables. |
| Registry.InsertKeepsValid | app.py:43-47 | Appending a well-formed row with a new id, name and token keeps the table constraints. |
| Registry.NewRowKeepsValid | app.py:105-116 | The row create_webhook inserts gets an id no row has, and keeps the table constraints. |
| Registry.AppendLogKeepsValid | app.py:57 | Appending a log of an existing webhook under a new log id keeps the constraints, including the foreign key. |
| Registry.CascadeKeepsValid | app.py:50 | Deleting a webhook together with its logs keeps every constraint. In particular, no log is left without its webhook. |
| Registry.CascadeRemovesExactly | app.py:50 | After the cascade, the id is gone and no log refers to it. Every other webhook and every log of another webhook is kept. |
| Registry.FlipActive | app.py:183 | Negates `is_active` of the row with the given id and changes no other field and no other row. |
| Registry.FlipActiveTwice | app.py:183 | Toggling twice restores the table. |
| Registry.FlipActiveKeepsValid | app.py:183 | Toggling keeps the table constraints. |
| Registry.InactiveIsNotFound | app.py:135-138 | When names are unique, the name of an inactive webhook finds no active webhook, so a delivery to it is a 404. |
| Registry.CreatedIsFound | app.py:105-116 | A webhook appended under a name no other row has is the active row its name finds. |
| Registry.DeletedHasNoLogs | app.py:50 | Once a webhook's logs are removed, its recent-logs query is empty. |
| Registry.WebhookStore.constructor | app.py:42-66 | The empty store satisfies the invariant. |
| Registry.WebhookStore.Create | app.py:95-124 | Reports an empty name iff the stripped name is empty, a duplicate iff a webhook (active or not) has it, and a failure iff the commit fails or the token is in use. Otherwise it appends exactly one active webhook under the next row id, the stripped name, the generated token and the clock. Logs never change, and nothing changes unless it creates. |
| Registry.WebhookStore.Receive | app.py:132-178 | 404 when no active webhook has the name; 401 on a wrong Bearer token; 500 when the commit fails. Otherwise 200, with exactly one new log appended: its webhook's id, clock, method, headers, body, peer address and User-Agent (default `""`), under a fresh log id that the reply carries. Webhooks never change, and logs change only on 200. |
| Registry.WebhookStore.Toggle | app.py:180-193 | An unknown id, or a failing commit, leaves the store unchanged. Otherwise the table becomes `FlipActive` of the old one and the reply carries the new flag. Logs never change. |
| Registry.WebhookStore.Delete | app.py:195-208 | An unknown id, or a failing commit, leaves the store unchanged. Otherwise the webhook and exactly its logs are removed, and everything else is kept in order. |
| Registry.WebhookStore.Details | app.py:126-130 | A 404 exactly when no webhook has the id. Otherwise that webhook and its `RecentLogs`. |
| Registry.NewStoreWith | app.py:95-118 | Creating a stripped, non-empty name in an empty store yields the single active row with id 1 and the token `generate_token` makes from the picks. |

## Left out

- Flask routing is not modelled: URL converters, `flash`, `redirect`, `render_template`, `jsonify`, the `index` page and the form page of `GET /create`. Replies are outcome datatypes and status codes.
- The overlap between `/webhook/<int:webhook_id>` and `/webhook/<webhook_name>` is left out, because it is a routing matter.
- HEAD is modelled as a method the view receives, since Flask adds it to a route that lists GET. OPTIONS, which Flask answers itself, is not modelled.
- The `url` field of `api_webhooks` is left out, because it is built by `url_for`. `Queries.ActiveListing` returns id, name and creation time only.
- Serialization is left out:
  - `json.dumps(dict(request.headers))` is not modelled; the log stores the headers as the sequence of pairs received, unfolded.
  - Decoding the body as text is not modelled; the body is a string.
  - ISO formatting of timestamps is not modelled.
- Ingestion.HeaderValue: does not model two rules of the WSGI server, which drops header names that contain `_` and removes line breaks from values; every header is seen as received.
- Column widths (`String(100)` and the like) are left out, because SQLite does not enforce them.
- `Queries.SortNewestFirst` fixes an order for logs with equal timestamps, the later-inserted first. The database leaves that order open, so the model is one of the orders it may return.
- Randomness, the clock and storage errors are parameters, as described above. Unguessability of the token and collision probability are not modelled.
- Concurrent requests and transactions interleaving are not modelled. Each handler runs atomically.
- The table bootstrap (`create_tables`), environment and filesystem setup, `models.py`, `wsgi.py`, the maintenance scripts and the static JavaScript are not part of this model.
