# classad-xrootd-mapping: response cache and locate client, in Dafny

This project models the sequential core of the ClassAd XRootD mapping plugin.
The plugin maps file names to the storage hosts that serve them, and it has two
pieces.

- **The TTL response cache** (`src/response_cache.cpp`) is a table from file
  name to a `CacheEntry`. An entry holds a copy of a host set and an absolute
  expiration time, 900 s after insertion. `query` first prunes. It then splits
  the requested names into hits, whose hosts are unioned into a sorted list,
  and misses (absent or expired), which are appended to `files_remaining`.
  `prune` sweeps out expired entries, but not within 60 s of `m_last_pruning`.
  `getList` and `addToList` write a host set into a ClassAd list, one element
  per host, in ascending order.
- **The locate client** (`src/xrootd_client.cpp`) covers three things:
  - a registry holding one `FileMappingClient` per redirector host;
  - the per-token filter and normaliser inside `locate`, which reads the
    serving-node entries of a kXR_locate response;
  - `map`, which locates every file and writes the union of the hosts found
    as a sorted, duplicate-free vector.

Files:

- `host_order.dfy` (module `HostOrder`): `std::string`'s `operator<` as
  `Less`, with its strict-total-order lemmas. `Least` is the first element of
  a `std::set<std::string>`. `StrictlyAscending` holds for a list sorted
  without repeats. `AscendingUnique` proves that a set has exactly one such
  enumeration.
- `response_cache.dfy` (module `ResponseCacheModel`):
  - `CacheEntry` is a datatype (immutable once built). `CacheEntry::getSet`
    and `CacheEntry::isValid` are its members `GetSet` and `IsValid`.
  - `ResponseCache` is a class. Its fields are `responseMap` and
    `lastPruning`, and its methods change them in place.
  - `ExprList` is a class, because `addToList` extends a shared list in place.
  - The specification functions `Hit`, `Misses`, `HitHosts` and `Sweep` state
    what a query answers and what a sweep leaves.
- `xrootd_client.dfy` (module `XrootdClientModel`):
  - `Find` models `std::string::find`.
  - `Tokenize` is the split a default `boost::tokenizer<>` makes of the
    response text.
  - `Normalize` is the verdict on one token.
  - `Collect` folds the tokens of one reply, and `Gather` folds the replies of
    one batch.
  - The classes `FileMappingClient` (`Locate`, `Map`) and `ClientRegistry`
    (`GetClient`, with its invariant `Valid`) complete the module.

The clock `time(NULL)` is a `now` parameter. The network round trip of
`locate` is a `LocateReply` parameter with four values: send failed, null
response, empty response, or the response's tokens. `Map` takes one reply per
file name. Host sets are Dafny `set<string>`. Walking a `std::set` from
`begin()` to `end()` is modelled by repeatedly taking `Least` of what remains.

### Behaviour as written

The model follows the code as written, including where the code misses its
evident intent:

- The comment at `src/response_cache.cpp:91` ("Do not prune too frequently")
  asks for a rate limit. But `m_last_pruning` is set only by the constructor
  (`src/response_cache.cpp:36`), and `prune` never moves it, so the limit
  applies only in the first 60 s. After that every query sweeps.
  `SweepsOneSecondApart` shows two sweeps one second apart that both remove
  entries.
- An empty locate response executes `return -1` in a function returning
  `bool` (`src/xrootd_client.cpp:204-205`). The value converts to `true`, so
  `Locate` reports success and adds nothing.
- Suppose an accepted token contains `[::` but no `]` after it. Then
  `erase(find("]"))` is `erase(npos)`, which throws `std::out_of_range`
  (`src/xrootd_client.cpp:239`). `Normalize` returns `Throws` for such a
  token. `Locate` and `Map` then end with `OutOfRange`, and `Map` leaves the
  caller's vector unchanged. For example, `Normalize("Sr[::10.0.0.5")` is
  `Throws`.
- The response text is split by a default-constructed `boost::tokenizer<>`
  (`src/xrootd_client.cpp:208`). Its default separator,
  `char_delimiters_separator<char>`, drops punctuation as well as whitespace.
  `Tokenize` models that split. So `Sr[::10.0.0.5]:1094` reaches the loop at
  `src/xrootd_client.cpp:209` as the words `Sr`, `10`, `0`, `0`, `5` and
  `1094`. No token ever has `[` at index 2, so every token is skipped.
  `CollectTokenized` proves that `locate` then inserts no host and never
  throws. `MapTokenizedReplies` proves that `map` then returns `true` with an
  empty vector. The comment at `src/xrootd_client.cpp:211-213` shows that
  whole entries of the form `xy[::addr]:port` were meant to reach the loop.
  `Locate` and `Map` therefore take the tokens as a parameter. `Normalize`,
  `NormalizeEntry` and `NormalizeExamples` describe what the loop does with
  such whole entries. `EntryNeverAToken` records that, as written, no such
  entry is ever one of the tokens.
- The normaliser does no reverse name resolution. A framed token without
  `[::` is kept whole, node type and port included. A bracketed IPv6 entry
  such as `Sr[fe80::1]:1094` has no `:` at index 4, so it is skipped.
- The deduplication table (`ResponseTable`, `createHash`) is declared in
  `src/response_cache.h` but never defined or used. `Insert` registers
  nothing in it.

## Model

| member | source | states |
|---|---|---|
| `HostOrder.Least` | src/response_cache.cpp:124 | The element a host set yields first is in the set and comes before every other element. |
| `HostOrder.AscendingUnique` | src/response_cache.cpp:124-129 | Two strictly ascending lists with the same elements are equal. The order of a written host list is therefore fixed by its set. |
| `HostOrder.AscendingLength` | src/xrootd_client.cpp:64-69 | A strictly ascending list holding exactly the elements of a set has one element per member. |
| `ResponseCacheModel.EntryLifetime` | src/response_cache.cpp:14-33 | An entry stamped at `t` expires at `t + 900`. It is valid at `now` exactly when `now - t < 900`, and it is already invalid at its expiration instant. |
| `ResponseCacheModel.SweepDropsExactlyExpired` | src/response_cache.cpp:98-106 | A sweep at `now` keeps exactly the entries valid at `now`, each unchanged. This spells out `Sweep` for readers of `Prune`'s contract. A second sweep at the same instant changes nothing. A later sweep keeps no name that an earlier one dropped. |
| `ResponseCacheModel.Misses` | src/response_cache.cpp:63-76 | The names sent back are exactly the requested names that are absent or expired, and there are no more of them than requested names. |
| `ResponseCacheModel.HitHosts` | src/response_cache.cpp:78-79 | The hosts collected are exactly those in the host set of some requested name with a valid entry. |
| `ResponseCacheModel.MissesAppend` | src/response_cache.cpp:63-76 | The misses of a concatenated request are the misses of each part, in order. Misses keep request order. |
| `ResponseCacheModel.RequestPartition` | src/response_cache.cpp:63-80 | A requested name is a miss exactly when it is not a hit. All hosts of a hit reach the result. |
| `ResponseCacheModel.SweepInvisibleToLookup` | src/response_cache.cpp:54-80 | Pruning at `now` before the lookup at the same `now` changes neither the misses nor the hosts found. |
| `ResponseCacheModel.LookupStep` | src/response_cache.cpp:65-79 | Moving past one name adds it to the misses, or adds its hosts to the result, according to whether it is a hit. |
| `ResponseCacheModel.ResponseCache.constructor` | src/response_cache.cpp:35-38 | A new cache is empty, and `lastPruning` is the creation time. |
| `ResponseCacheModel.ResponseCache.Insert` | src/response_cache.cpp:109-117 | The table maps the name to an entry with the given hosts that expires at `now + 900`. Every other entry and `lastPruning` are unchanged. |
| `ResponseCacheModel.ResponseCache.Prune` | src/response_cache.cpp:86-107 | Within 60 s of `lastPruning` the table is unchanged. Otherwise it becomes the sweep at `now`. `lastPruning` never changes. |
| `ResponseCacheModel.ResponseCache.Query` | src/response_cache.cpp:51-84 | The table is pruned as `Prune` states. `files_remaining` gains exactly the misses, in request order, after what it already held. The new list is ascending and holds each host of a hit once. |
| `ResponseCacheModel.ExprList.constructor` | src/response_cache.cpp:123 | A new ClassAd list is empty. |
| `ResponseCacheModel.ResponseCache.GetList` | src/response_cache.cpp:119-134 | A new list is strictly ascending, holds exactly the hosts, and has one element per host. |
| `ResponseCacheModel.ResponseCache.AddToList` | src/response_cache.cpp:136-145 | The existing elements stay as a prefix. After them come exactly the hosts, once each, strictly ascending. |
| `ResponseCacheModel.InsertThenQuery` | src/response_cache.cpp:51-84 | A name inserted and queried before its lifetime ends is a hit: nothing is sent back, and the answer is exactly its hosts. |
| `ResponseCacheModel.InsertThenQueryExpired` | src/response_cache.cpp:72-76 | A name queried once its lifetime is over is sent back, and the answer is empty. |
| `ResponseCacheModel.InsertTwice` | src/response_cache.cpp:116 | A second insert of a name replaces the first. Only the second host set remains. |
| `ResponseCacheModel.SweepsOneSecondApart` | src/response_cache.cpp:87-95 | Queries at 1000 s and at 1001 s after creation both sweep, because `lastPruning` never advances. |
| `XrootdClientModel.Find` | src/xrootd_client.cpp:236 | The result is the first position at or after `from` where the pattern occurs, or none when it does not occur there. |
| `XrootdClientModel.FindFirst` | src/xrootd_client.cpp:236 | When the pattern occurs at `k` and nowhere between `from` and `k`, the search finds `k`. |
| `XrootdClientModel.Normalize` | src/xrootd_client.cpp:217-241 | A token is skipped exactly when it is under 8 characters, lacks `[` at 2 or `:` at 4, or has a node type other than S, s, M, m. Without `[::` from index 2 the whole token is the host. With it, the host is the text between the first `[::` and the next `]`, which contains no `]`. It throws exactly when no `]` follows that `[::`. |
| `XrootdClientModel.NormalizeEntry` | src/xrootd_client.cpp:211-241 | For an entry `xy[::addr]:port` of an accepted node type, the host is `addr`. This holds whenever `addr` contains no `]` and the entry has at least the 8 characters the length test demands, so `Sr[::x]:` gives `x` and `Sr[::]:1` gives the empty name. |
| `XrootdClientModel.NormalizeRejectsNodeType` | src/xrootd_client.cpp:222-231 | An entry of any other node type is skipped. |
| `XrootdClientModel.NormalizeExamples` | src/xrootd_client.cpp:217-241 | `Sr[::10.0.0.5]:1094` gives `10.0.0.5`. The 5-character `Sr[::` is skipped. `Sr[::10.0.0.5` throws. |
| `XrootdClientModel.Collect` | src/xrootd_client.cpp:208-242 | Walking the tokens only adds hosts to the caller's set. |
| `XrootdClientModel.CollectComplete` | src/xrootd_client.cpp:209-242 | The walk throws exactly when some token throws. Without a throw it adds exactly the hosts of the accepted tokens. A skipped token does not stop later ones. |
| `XrootdClientModel.CollectStopsAtThrow` | src/xrootd_client.cpp:239 | Once a token throws, the tokens after it have no effect. |
| `XrootdClientModel.GatherComplete` | src/xrootd_client.cpp:56-62 | A batch throws exactly when some token of some reply throws. Without a throw, the hosts gathered are exactly the accepted hosts across all replies. |
| `XrootdClientModel.GatherStopsAtThrow` | src/xrootd_client.cpp:59-62 | Once one locate throws, the later files have no effect. |
| `XrootdClientModel.FileMappingClient.constructor` | src/xrootd_client.cpp:73-78 | The client for a host records the host and the URL `root://` followed by the host. |
| `XrootdClientModel.FileMappingClient.Locate` | src/xrootd_client.cpp:184-245 | A failed send or a null response gives `false` with the set unchanged. An empty response gives `true` (from `-1`) with the set unchanged. Otherwise the set becomes the walk over the tokens, and the result is `true` unless a token throws. |
| `XrootdClientModel.FileMappingClient.Map` | src/xrootd_client.cpp:56-71 | Without a throw the result is `true`, and the vector is replaced by the union of all located hosts, strictly ascending, one element per host. On a throw the vector is unchanged. |
| `XrootdClientModel.ClientRegistry.constructor` | src/xrootd_client.cpp:11 | The registry starts empty. It therefore satisfies `Valid`: every registered client serves the host it is registered under. |
| `XrootdClientModel.ClientRegistry.GetClient` | src/xrootd_client.cpp:42-54 | A registered host gets its existing client and the table is unchanged. Otherwise a fresh client for the host is added under that host and returned, and no other entry changes. Afterwards the host is always registered, and the client returned serves `hostname`. `Valid` is preserved: every registered client serves the host it is registered under, because the table is written only at line 48 with a client made for that host. |
| `XrootdClientModel.GetClientTwice` | src/xrootd_client.cpp:45-52 | Asking twice for one host returns the same client, which serves that host, and at most that host is added. |
| `XrootdClientModel.Tokenize` | src/xrootd_client.cpp:208-209 | Every token a default `boost::tokenizer<>` yields is non-empty and contains neither whitespace nor punctuation. |
| `XrootdClientModel.TokenizeKeepsLetters` | src/xrootd_client.cpp:208 | The split loses the delimiters and nothing else: the tokens laid end to end are the text's other characters, in order. |
| `XrootdClientModel.EntryNeverAToken` | src/xrootd_client.cpp:208-217 | No entry `xy[::addr]:port` is ever one of the tokens, because its `[` is a delimiter. |
| `XrootdClientModel.CollectTokenized` | src/xrootd_client.cpp:208-242 | Walking the tokens of any response text, as the program splits it, inserts no host and never throws. |
| `XrootdClientModel.GatherTokenized` | src/xrootd_client.cpp:59-62 | When every reply was split by the tokenizer, a batch of locates gathers no host and nothing throws. |
| `XrootdClientModel.MapTokenizedReplies` | src/xrootd_client.cpp:56-71 | With responses split as the program splits them, `map` returns `true` and an empty vector, whatever the servers answer. |

## Left out

- `FileMappingClient::connect` (`src/xrootd_client.cpp:82-182`) is left out. Its retry loop is driven by opaque XrdClient calls, `sleep` and environment lookups. The constructor of `FileMappingClient` therefore makes no connection attempt.
- Building the kXR_locate request and `SendGenCommand` (`src/xrootd_client.cpp:187-203`) are network I/O. Their outcome is the `LocateReply` parameter.
- `XrootdClientModel.FileMappingClient.Locate` takes the tokens of the response, not its text. The program splits the text with a default `boost::tokenizer<>` (`src/xrootd_client.cpp:208`), which drops punctuation as well as whitespace. That split is `Tokenize`, but `Locate` does not apply it itself. For the tokens the program actually produces, `Locate` and `Map` only ever find no host (`CollectTokenized`, `GatherTokenized`, `MapTokenizedReplies`). The `Entries` tokens that contain a whole `xy[::addr]:port` entry stand for a whitespace-only split, which is not what the code does. `Tokenize` classifies characters by the ASCII "C" locale, so non-ASCII characters count as word characters.
- `FileMappingResponseHandler` and `WaitForResponseMS` (`src/xrootd_client.h:46-124`) are left out. They are a condition-variable handoff with a timeout, which is concurrency.
- The mutexes (`Lock`, `XrdSysMutexHelper`, `src/pthread_utils.h`) and the `ResponseCache::getInstance` singleton (`src/response_cache.cpp:40-49`) are not modelled. The model is sequential, and a cache or registry is an explicit object.
- The deduplication table `m_response_table` and `CacheEntry::createHash` (`src/response_cache.h:24`, `src/response_cache.h:36`) are declared but have no definitions, so there is nothing to model. The `ResponseCache &` argument of the `CacheEntry` constructor is unused and is dropped.
- `src/xrootd_mapping.cpp` (ClassAd function binding, export table, stub functions) and `src/test_main.cpp` (CLI harness) are not part of this model.
- ClassAd `Literal` and `Value` wrappers are not modelled. A list element is the host name string itself.
- `time_t` is an unbounded integer, so the overflow of `now + 900` and of `now - m_last_pruning` near the end of the 64-bit range is not modelled.
- Strings compare by Dafny character code. This agrees with `std::string`'s unsigned-byte comparison for the single-byte characters of host names, but no byte encoding is modelled.
- `ResponseCacheModel.ResponseCache.Prune`: the source erases the element its iterator points at and then increments that iterator (`src/response_cache.cpp:98-105`), which is undefined behaviour in C++. The model idealises this loop as visiting every entry and removing exactly the expired ones.
- `XrootdClientModel.FileMappingClient.Locate`: when a token throws, the set reflects the tokens before it. This is not stated beyond `Collect`, because the only caller, `Map`, discards that set.
