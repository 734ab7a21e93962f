# Delivery announcement server: verified model of the in-memory core

The backend of the delivery announcement server is a prototype. Its only
behaviour beyond HTTP glue is two small in-memory structures, and this project
models both as pure Dafny values:

* **`DeliveryStore`** (`storage.dfy`, module `Storage`): an append-only list of
  delivery records. It has a full listing (`list_all`), a filter by expected date
  (`list_for_date`) and an append (`add`). A fresh store is seeded with two sample
  records dated "today".
* **`AdapterRegistry`** (`adapters.dfy`, module `Adapters`): an insertion-ordered
  map from adapter key to description, with the semantics of a Python `dict`.
  It has `register` and `list`, plus the three module-level registries for
  mail providers, parsers and targets.

The delivery record (`models.dfy`, module `Models`) has the fields of the
`DeliveryObject` model. `time_window` is an `Option<string>` and
`raw_metadata` is a `map<string, string>`. `status` is a plain string, since
the code gives it no enumeration. `Date` and `Instant` are datatypes whose fields no
operation reads; the store only compares dates for equality. `wrappers.dfy` holds `Option`.

The store and its records are values. In the source, records are shared
mutable objects: `list_all` makes a shallow copy, `list_for_date` returns the
stored objects themselves, and `add` stores the caller's object by reference.
The model treats every record as immutable, so it describes the store only as
changed by `add`. The clock is a parameter. The two `date.today()` reads, one
per seeded record, are the `day1` and `day2` arguments of `NewStore`. The two
`last_update` defaults are its `created1` and `created2` arguments. Each seeded
record reads the clock on its own, so the two dates differ when construction
straddles midnight.

The registry's key order and contents are a `seq<string>` and a `map`. The
predicate `Valid` ties them together: each key is listed exactly once. Every
Python `dict` satisfies it, so it is a representation invariant, not a demand
on callers. `Register` preserves it.

The code has no parser (the parse endpoint, src/backend/app.py:74-82, is a
stub), no merging of records and no routing. `date_expected` is a required
field (src/backend/models.py:14), and `add` only appends. The model follows the code.

## Model

| member | source | states |
|---|---|---|
| Storage.NewStore | src/backend/storage.py:10-30 | A fresh store holds exactly two records, `sample-1` then `sample-2`, each dated by its own `date.today()` read |
| Storage.NewStoreListForDate | src/backend/storage.py:10-36 | At construction, `list_for_date(d)` holds, in seeding order, each sample whose `date.today()` read gave `d`, including when the two reads differ |
| Storage.NewStoreListsSamplesToday | src/backend/storage.py:10-36 | When both reads give the same day, `list_for_date` of that day returns both samples in order, and any other date yields nothing |
| Storage.ListAll | src/backend/storage.py:32-33 | `list_all` returns the stored records in stored order; its partner is Storage.ListAllAfterAdds |
| Storage.Matching | src/backend/storage.py:36 | The comprehension keeps only records with the requested date and keeps every such record; the result is no longer than its input |
| Storage.ListAllAfterAdds | src/backend/storage.py:32-39 | After any run of `add` calls, `list_all` returns the earlier contents followed by the added records in the order added |
| Storage.ListForDate | src/backend/storage.py:35-36 | Every returned record has the requested date; every stored record with that date is returned; the result is no longer than the store |
| Storage.ListForDateIsOrderedSelection | src/backend/storage.py:35-36 | The result is the stored records at strictly ascending positions, and a position is selected exactly when its record's date equals the requested one |
| Storage.ListForDateIsSubsequence | src/backend/storage.py:35-36 | `list_for_date(d)` is an order-preserving subsequence of `list_all()` |
| Storage.SelectionIsUnique | src/backend/storage.py:35-36 | Any list made of exactly the matching positions, in ascending order, equals the filter result, so that description determines it |
| Storage.ListForDateCount | src/backend/storage.py:35-36 | A record appears in the result as many times as it is stored if its date matches, and never otherwise |
| Storage.ListForDateScan | src/backend/storage.py:35-36 | The comprehension's left-to-right scan builds exactly the filtered list |
| Storage.MatchingConcat | src/backend/storage.py:36 | Filtering a concatenation of record lists gives the concatenation of the filtered parts |
| Storage.Add | src/backend/storage.py:38-39 | `add` grows the store by exactly one, leaves every earlier record in place and puts the new record last |
| Storage.AddDoesNotDeduplicate | src/backend/storage.py:38-39 | Adding a record whose id or (carrier, tracking id) is already stored still adds one more copy |
| Storage.ListForDateAfterAdd | src/backend/storage.py:35-39 | After `add(x)`, `list_for_date(d)` is the previous result plus `x` when `x` is expected on `d`, and unchanged otherwise |
| Storage.ListForDateAfterAdds | src/backend/storage.py:35-39 | After a run of `add` calls, `list_for_date(d)` is the previous result followed by the added records expected on `d` |
| Adapters.New | src/backend/adapters.py:7-9 | A new registry keeps its kind, lists no keys and describes no key |
| Adapters.List | src/backend/adapters.py:14-15 | `list()` names every registered key exactly once and nothing else |
| Adapters.Register | src/backend/adapters.py:11-12 | After `register(k, v)`, `k` is described by `v` and no other key's description changes. A new key is appended to `list()`; re-registering a key leaves `list()` identical |
| Adapters.RegisterIdempotent | src/backend/adapters.py:11-12 | Registering the same key and description twice is the same as registering it once |
| Adapters.RegisterLastWriteWins | src/backend/adapters.py:11-12 | Two registrations of one key are the same as the later one alone |
| Adapters.HistoryListsRegisteredKeys | src/backend/adapters.py:11-15 | After any sequence of registrations, `list()` holds exactly the keys that were registered |
| Adapters.HistoryListsKeysByFirstRegistration | src/backend/adapters.py:11-15 | After any sequence of registrations, `list()` is ordered by the position of each key's first registration |
| Adapters.HistoryLastWriteWins | src/backend/adapters.py:11-15 | After any sequence of registrations, each key is described by its last registration, and unregistered keys have no description |
| Adapters.DistinctHistoryLists | src/backend/adapters.py:11-15 | When no key is registered twice, `list()` is the registered keys in call order, each with its own description |
| Adapters.ProviderRegistry | src/backend/adapters.py:18-20 | The provider registry lists `gmail`, `generic_imap` in that order, with their descriptions |
| Adapters.ParserRegistry | src/backend/adapters.py:22-25 | The parser registry lists `DE_DHL`, `DE_HERMES`, `AMAZON_UK` in that order, with their descriptions |
| Adapters.TargetRegistry | src/backend/adapters.py:27-31 | The target registry lists `google_calendar`, `calendar_ics`, `todo_generic`, `ntfy_push` in that order, with their descriptions |

## Left out

- HTTP endpoints (src/backend/app.py): thin pass-throughs to the store and the registries. The parse stub returns Python's per-process salted `hash()`, which is not deterministic.
- Static configuration (src/backend/config.py): fixtures with no behaviour. Nothing in the code checks that routing rules name existing accounts or targets, so the model claims nothing about it.
- Clocks: `date.today()` and `datetime.utcnow` become parameters, one per read; no operation reads `last_update`.
- Pydantic validation and type coercion of `DeliveryObject` fields: library behaviour; the model assumes well-typed values.
- The `kind` string of a registry is stored and preserved but nothing reads it.
- Parsing (the parse endpoint is a stub), routing (nothing evaluates the routing rules of src/backend/config.py), retries and concurrency: the code implements none of them.
- Copy semantics of `list_all`: aliasing of the list returned by `list_all` cannot be expressed with value semantics. The model states what the listing contains (Storage.ListAllAfterAdds), not that it is a fresh object.
- Shared mutable records: in the source, `DeliveryObject` instances are mutable and shared. Records returned by `list_all` or `list_for_date`, and records passed to `add`, are the stored objects themselves, so changing one (for example its `status`) changes the store. The model's records are immutable values, so changes made through such references are not modelled.
