# Microblog state machine in Dafny

A model of the microblog component in `src/app.rs`. It is a single-page
client that keeps short text entries and persists them to one browser-local
storage key. The model covers:

- the entry record and the empty draft (`BlogEntry::new`);
- the identifier rule `next_id`: the largest id plus one, or 1 for no entries;
- the unused pagination helper `_get_page`;
- the newest-first order in which `view` lists the entries;
- initialisation in `create`, which starts from the restored list or from the
  empty list when restoring fails;
- the `update` dispatcher over the five `BlogMsg` events, which writes the
  entry list to storage after every event and always asks for a re-render.

Two modules:

- `Entries` (`entries.dfy`) is pure. It holds `Entry`, `NewEntry`, `MaxId` and
  `NextId`, `GetPage`, `NewestFirst`, and lemmas about them. The lemmas say
  that ids stay distinct when entries are added, that entries added from an
  empty list get ids 1, 2, 3, ..., that each entry lies on exactly one page,
  and that a new entry is shown first.
- `App` (`app.dfy`) is the component. `Blog` is a class whose fields are the
  four fields of the Rust `BlogState` (`inflight`, `entries`, `adding`,
  `pageSize`) plus `stored`, the storage slot. Its constructor models `create`
  and its method `Update` models `update`. `EndToEnd` runs one session:
  compose and save one entry, then start a new blog from what was stored.

Inputs from outside the component are parameters:

- The current instant (`Utc::now()`) is a `Timestamp` argument `now` of the
  constructor and of `Update`. `Update` uses it only for the fresh drafts made
  by `Add` and `HideAdd`.
- The result of restoring the storage key is a `Slot` argument of the
  constructor: `Holds(entries)`, or `Unreadable` when the key is absent or
  its value does not parse.

Facts about the code behind the model:

- The model has no storage key: `Slot` stands for the one slot the component
  uses, which src/app.rs:11 names `yew.microblog.self`.
- Nothing checks the ids of restored entries, so restored ids may repeat or be
  0. The model proves only that `Update` keeps distinct ids distinct. It does
  not claim that every state has distinct, positive ids.
- `create` reads storage but does not write it. `stored` is therefore
  guaranteed to equal `Holds(entries)` only after the first `Update`.

## Model

| member | source | states |
|---|---|---|
| `Entries.NewEntry` | src/app.rs:37-44 | a new draft has an empty title, an empty body, id 0, and the supplied creation instant |
| `Entries.MaxId` | src/app.rs:140 | the result is at least every entry's id and equals the id of some entry: the maximum id of a non-empty list |
| `Entries.NextId` | src/app.rs:139-145 | the result is at least 1 and exceeds every existing id; it is 1 for no entries, otherwise some entry's id plus one (so exactly the maximum id plus one) |
| `Entries.AppendNextIdKeepsDistinct` | src/app.rs:172-177 | if the ids are pairwise distinct, they stay pairwise distinct after appending the draft with id `NextId` |
| `Entries.NextIdAfterAppend` | src/app.rs:139-145 | after appending an entry that carries the next id, the next id is exactly one higher |
| `Entries.SequentialNextId` | src/app.rs:172-177 | when the ids are 1..n in insertion order, the next id is n+1 and appending keeps the ids 1..n+1 |
| `Entries.GetPage` | src/app.rs:126-137 | None exactly when `page * pageSize >= len`; otherwise the contiguous run of entries starting at `page * pageSize`, of length `min(pageSize, len - page * pageSize)` |
| `Entries.PageCoversEntry` | src/app.rs:126-137 | with a positive page size, entry `i` is element `i % pageSize` of page `i / pageSize`, which exists |
| `Entries.PageOfEntryUnique` | src/app.rs:126-137 | with a positive page size, element `k` of page `q` is entry `q * pageSize + k`, whose own page and offset are `q` and `k`: no entry is on two pages |
| `Entries.NewestFirst` | src/app.rs:207 | the display list has the same length as the entries, in reverse order: position k shows entry `len - 1 - k` |
| `Entries.NewestFirstAfterAppend` | src/app.rs:207 | after an append, the new entry is shown first, followed by the earlier display list |
| `App.Blog.constructor` | src/app.rs:152-166 | the entries are the restored list when the slot holds one, and empty when restoring fails; the draft is a fresh empty one; the compose panel is closed; the page size is 10; storage is untouched |
| `App.Blog.Update` | src/app.rs:170-194 | per event, the whole new state. Add appends the draft with id `NextId` and resets the draft. ShowAdd opens the panel and changes nothing else. HideAdd closes the panel and resets the draft. UpdateTitle and UpdateBody replace only that draft field. Every event keeps the page size, leaves storage equal to the entries, and returns true. Distinct ids and the ids 1..n stay so |
| `App.EndToEnd` | src/app.rs:152-194 | from unreadable storage, ShowAdd, UpdateTitle("Hello"), UpdateBody("World"), Add: one entry with id 1 and the first draft's time stamp, an empty draft, storage holding that entry, and a blog restored from storage has the same entries |

## Left out

- HTML rendering in `view_input`, `view_entry` and `view` (src/app.rs:48-113, 196-212) is not modelled, because it is presentation. The one exception is the newest-first order at line 207, which `NewestFirst` models.
- The storage service, the `Json` wrapper and serde (de)serialisation are foreign library calls. Storage is an abstract `Slot`. No JSON encoding is modelled, so there is no encode/decode round trip. What the model states instead is that a blog restored from the slot written by `Update` gets the same entries back.
- A write to storage always succeeds in the model: `Update` sets `stored` to the entries unconditionally. The source ignores the outcome of `storage.store` (src/app.rs:192), and a failed or skipped write is not modelled.
- `chrono` is not modelled. Time stamps are opaque `Timestamp` values supplied by the caller, and the local-timezone `%v` formatting is rendering.
- `Entries.NextId` and `App.Blog.Update`: ids are unbounded `nat`. The `usize` overflow of `max.id + 1` (wrap-around or panic) is not modelled.
- `Entries.GetPage`: `page * page_size` and `start + page_size` are unbounded. Their `usize` overflow is not modelled.
- The yew `ComponentLink`, the component lifecycle and the actual re-render are framework plumbing. `Update` returns the `ShouldRender` flag and nothing more.
- The `GetPage` event that is commented out in `BlogMsg` and `update` is not part of the program, so it is not modelled.
