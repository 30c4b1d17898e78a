# Redis login-cache loader, modelled in Dafny

`carrega_redis.py` fills a Redis cache with the users who may log in. The
list comes from a PostgreSQL query. A user is eligible when:

- the user is active;
- the user may access the system;
- there EXISTS an active link (`auth.usuario_contrato`) to an active contract
  (`auth.contrato`).

The result is ordered by user id. For each such user, `init_redis` stages
two commands on one non-transactional pipeline:

- `SET <prefix><id> "1"`
- `SADD <set_name> <id>`

It then sends them together. With `--dry-run` it prints the commands
instead.

The project has four modules:

- `Decimal` (`decimal.dfy`) writes an integer as Python's `str(int)` does.
  This is the text used in the key `f"{prefix}{uid}"` and in the member redis-py
  sends for an `int`. A parser reads it back, which shows that distinct ids
  give distinct keys and distinct set members.
- `Eligibility` (`eligibility.dfy`) holds the three tables as sequences of
  rows in memory. The query is a filter (`Select`, the WHERE clause with its
  EXISTS), a sort (`SortById`, the ORDER BY) and a projection. `FetchUsers`
  is `fetch_users`' row mapping.
- `Cache` (`cache.dfy`) is the part of Redis the loader touches.
  - There is ONE keyspace, in which a key holds a string or a set of strings.
  - SET overwrites whatever the key held.
  - SADD creates a set or adds to one. On a key that holds a string it
    answers WRONGTYPE and changes nothing.
  - `Store` is the server. `Pipeline` is a class whose `Set`/`SAdd` stage
    commands and whose `Execute` runs them all in order, including those
    after an error, as a non-transactional pipeline does.
- `Loader` (`loader.dfy`) holds `InitRedis`, the imperative loop over the
  users with the real pipeline. Its specification is stated in three pieces:
  - `Staged` is the commands the loop stages.
  - `Expected` is the keyspace the refresh produces, written in one piece.
  - `Clash` is the condition under which `pipe.execute()` raises.

  `PipelineOutcome` and `PipelineErrors` prove that running the staged
  commands one by one gives exactly `Expected` and raises exactly on `Clash`.
  Further lemmas derive from `Expected` that every flag key holds "1", that
  the set gains exactly the ids, that no key is deleted and that a second run
  changes nothing.

Three things the model makes explicit:

- The refresh is additive. Users who lost eligibility keep their flag key and
  stay in the set (`RefreshIsAdditive` says which keys change).
- Because Redis has a single keyspace, `execute()` raises when `set_name`
  already holds a string, or when `set_name` equals one of the flag keys
  (for example prefix `user:` and set name `user:7`). The SET commands are
  applied before it raises. `InitRedis` returns that as `failed`, and the
  state it leaves is still `Expected`.
- The dry-run summary prints `len(users)` followed by the word "comandos",
  while `2 * len(users)` commands would be staged (`Staged`'s length). The
  model prints what the code prints.

## Model

| member | source | states |
|---|---|---|
| Decimal.DecimalText | python/carrega_redis.py:65-70 | `str(uid)`: '-' for a negative id, then the digits with no leading zero; its contract is carried by `RoundTrip`, `DecimalTextInjective` and `DecimalTextCanonical` |
| Decimal.RoundTrip | python/carrega_redis.py:65-70 | parsing the decimal text of any integer id gives back that integer, negative ids included |
| Decimal.DecimalTextInjective | python/carrega_redis.py:65-70 | two ids have the same decimal text (key suffix, set member) if and only if they are equal |
| Decimal.DecimalTextCanonical | python/carrega_redis.py:65 | the text of an id is non-empty, starts with '-' exactly for negative ids, and has no leading zero except "0" itself |
| Eligibility.CanLogIn | python/carrega_redis.py:14-23 | the WHERE clause: `ativo` and `pode_acessar` are true and EXISTS a link of the user that is active and whose contract is active; the properties that use it are `Select`, `QueryMembership` and `ExtraQualifyingLinkChangesNothing` |
| Eligibility.Select | python/carrega_redis.py:14-23 | the WHERE clause keeps every row of an eligible user as often as it occurs and drops every other row; it never repeats a row per qualifying link, so it returns at most as many rows as it is given |
| Eligibility.InsertById | python/carrega_redis.py:24 | inserting a user into id-ordered rows keeps them ordered and adds exactly that user |
| Eligibility.SortById | python/carrega_redis.py:24 | ORDER BY u.id yields rows in ascending id order that are a permutation of its input |
| Eligibility.Project | python/carrega_redis.py:12 | each result row is `(u.id, u.nome)` of the user row at the same position |
| Eligibility.FetchUsers | python/carrega_redis.py:46-50 | `fetch_users` keeps the length and order of the rows and turns row i into `(usuario_id, nome)` |
| Eligibility.FetchUsersMembership | python/carrega_redis.py:50 | a pair is returned if and only if the corresponding row was in the result |
| Eligibility.Query | python/carrega_redis.py:11-25 | the whole query (filter, ORDER BY u.id, projection) never returns more rows than `auth.usuario` has; what it returns is stated by `QueryMembership`, `QueryOrderedById`, `EligibleUserReportedOnce` and `IneligibleUserNotReported` |
| Eligibility.QueryMembership | python/carrega_redis.py:11-25 | a row is in the result if and only if it is `(id, nome)` of a user that is active, may access, and has an active link to an active contract |
| Eligibility.QueryOrderedById | python/carrega_redis.py:24 | the result is in ascending id order, strictly ascending when user ids are a key |
| Eligibility.EligibleUserReportedOnce | python/carrega_redis.py:16-24 | with ids a key, an eligible user appears in exactly one row, whatever the number of its qualifying links |
| Eligibility.IneligibleUserNotReported | python/carrega_redis.py:13-23 | with ids a key, no result row carries the id of a user that may not log in |
| Eligibility.ExtraQualifyingLinkChangesNothing | python/carrega_redis.py:16-23 | adding a further qualifying link for a user who already has one leaves the result unchanged (EXISTS, not a join) |
| Eligibility.FetchedUsersAreEligible | python/carrega_redis.py:46-50 | `fetch_users` over the query returns exactly the `(id, nome)` pairs of eligible users, in ascending id order |
| Cache.Apply | python/carrega_redis.py:69-70 | SET makes the key hold the string; SADD adds the member to the set (creating it) or, on a string key, changes nothing; no other key changes and no key disappears |
| Cache.ReplyOf | python/carrega_redis.py:70-72 | a command is answered WRONGTYPE if and only if it is an SADD on a key holding a string |
| Cache.Replies | python/carrega_redis.py:72 | executing a pipeline gives one reply per staged command |
| Cache.Final | python/carrega_redis.py:72 | the keyspace after the pipeline's commands run in order; its properties are stated by `FinalFrame`, `Pipeline.Execute` and `Loader.PipelineOutcome` |
| Cache.FinalFrame | python/carrega_redis.py:72 | running commands deletes no key and leaves every key no command targets unchanged |
| Cache.ReplyAt | python/carrega_redis.py:72 | reply i is the reply to command i on the keyspace left by the commands before it, so an error does not stop later commands |
| Cache.Store.constructor | python/carrega_redis.py:52 | the `r` argument: a Redis server whose keyspace is the given one |
| Cache.Pipeline.constructor | python/carrega_redis.py:63 | a new pipeline is bound to its server and has nothing staged |
| Cache.Pipeline.Set | python/carrega_redis.py:69 | `pipe.set` only appends a SET to the staged commands |
| Cache.Pipeline.SAdd | python/carrega_redis.py:70 | `pipe.sadd` only appends an SADD to the staged commands |
| Cache.Pipeline.Execute | python/carrega_redis.py:72 | the server ends in the state of running every staged command in order, the replies are theirs, and the pipeline is emptied |
| Loader.FlagKey | python/carrega_redis.py:65 | `f"{prefix}{uid}"`: the prefix followed by `str(uid)`; its contract is carried by `FlagKeyInjective` |
| Loader.FlagKeyInjective | python/carrega_redis.py:65 | under one prefix, two users get the same flag key if and only if they have the same id |
| Loader.UserCommands | python/carrega_redis.py:69-70 | one user's share of the pipeline, SET of the flag key to "1" then SADD of `str(uid)` to `set_name`; its positions in the pipeline are stated by `StagedAt` |
| Loader.Staged | python/carrega_redis.py:64-70 | the loop stages two commands per user |
| Loader.StagedAt | python/carrega_redis.py:64-70 | user i's commands are at positions 2i and 2i+1: SET of `prefix + str(id)` to "1", then SADD of `str(id)` to `set_name` |
| Loader.FlagKeysHas | python/carrega_redis.py:65 | a key is a flag key if and only if it is `prefix + str(id)` for some listed user |
| Loader.IdsHas | python/carrega_redis.py:70 | a string is among the added members if and only if it is `str(id)` of some listed user |
| Loader.PipelineOutcome | python/carrega_redis.py:64-72 | running the staged commands from any keyspace gives `Expected`: flag keys hold "1", the set holds its old members plus the ids (unless a clash keeps the string there), every other key is as before |
| Loader.PipelineErrors | python/carrega_redis.py:64-72 | some command is answered WRONGTYPE, and so `execute()` raises, if and only if there are users and `set_name` is a flag key or already holds a string |
| Loader.ExpectedIdempotent | python/carrega_redis.py:64-72 | applying the refresh's outcome to its own result changes nothing |
| Loader.RefreshIdempotent | python/carrega_redis.py:64-72 | running the same load twice leaves the same keyspace as running it once |
| Loader.RefreshIsAdditive | python/carrega_redis.py:64-72 | without a clash, the load keeps every key, sets every user's flag to "1", makes the set its old members plus the ids, leaves every other key unchanged and raises no error |
| Loader.SetGainsExactlyTheIds | python/carrega_redis.py:70-72 | without a clash, a string is in the set afterwards if and only if it was before or is the id of a listed user |
| Loader.RefreshOutcome | python/carrega_redis.py:72 | the outcome and the error condition of executing the staged pipeline, together |
| Loader.DryRunLine | python/carrega_redis.py:67 | the line printed for one user in a dry run, naming the same key, set and member as the commands that would be staged |
| Loader.DryRunLines | python/carrega_redis.py:64-67 | one dry-run line per user, in the users' order; used by `InitRedis`'s contract |
| Loader.DryRunSummary | python/carrega_redis.py:75 | the dry-run summary, with `len(users)` in decimal |
| Loader.DoneMessage | python/carrega_redis.py:73 | the completion message, with `len(users)` in decimal |
| Loader.InitRedis | python/carrega_redis.py:52-75 | no users: prints `NoUsersMessage` (line 60) and touches nothing; dry run: prints one line per user plus the summary and leaves the cache unchanged; otherwise the cache becomes `Expected`, the call fails exactly on `Clash`, and the completion message is printed only when it does not fail |

## Left out

- `get_pg_conn`, `get_redis_client` (lines 27-43): connecting to PostgreSQL and Redis from environment variables is I/O. The database is a value and the server a `Store` object, both passed in.
- `parse_args` and `main` (lines 77-110): argument parsing, timing, the progress messages, the exit codes and the printed exception are process-level I/O. The failure of `execute()` is returned as `failed` instead of raised.
- Network and server failures (a dropped connection, a partial send, a Redis out of memory) are not modelled. The only error that is modelled is WRONGTYPE.
- SQL NULL: the flags are `bool`, so three-valued logic on NULL `ativo`/`pode_acessar` is not modelled. The schema is not part of this model.
- Order among rows with equal ids: `ORDER BY u.id` leaves it to the database. `SortById` picks one order, and the properties claim only ascending ids and the multiset of rows.
- `Eligibility.EligibleUserReportedOnce`, `Eligibility.IneligibleUserNotReported`: stated for a user table whose ids are unique (the primary key of `auth.usuario`). Without that, the query reports each user row, and that case is covered by `Eligibility.Select`.
- Redis key expiry, other data types (list, hash, …), `SET` options, and redis-py's byte encoding of arguments: keys and values are modelled as strings, and an `int` argument as its decimal text.
- `init_redis`'s console output is the returned `log`. The wording is kept; how it reaches stdout is not modelled.
