# Alexya session results and string helpers, in Dafny

This project models three pieces of the Alexya framework's tools package as
pure functions over immutable values, and proves properties about them.

- **The result mailbox** (`Alexya/Tools/Session/Results.php`). Request handlers
  publish *flash* results, which are read once, and *permanent* results, which
  stay until they are deleted. All results live in one ordered list of
  `{type, name, result}` records, kept in the session variable `"_RESULTS"`.
  `get($length, $offset)` skips `$offset` records and collects the values of
  the next `$length` records. Every collected flash record is evicted, and the
  list is written back once. Modules `ResultList` (the list and its
  read/evict semantics, including the loop of `get` as the method
  `Collect`) and `Results` (the operations over the session).
- **The session backend** (`Alexya/Tools/Session/Session.php`). The class
  keeps two copies of the session variables: its `Collection` parent and
  PHP's `$_SESSION`. `Session.Store` holds both maps. The invariant
  `Mirrored` says they are equal. `set` and `deleteByKey` preserve it, and
  it lets `get` test the collection but read `$_SESSION`.
- **String helpers** (`Alexya/Tools/Str.php`). This covers `startsWith`,
  `endsWith` and `contains`, plus the word-array branches of `snake` and of
  the camel-case method. The searches are modelled on PHP's own
  `strpos`/`strrpos` (`Str.Strpos`, `Str.Strrpos`). Each is then proved equal
  to a prefix, suffix or substring characterisation.

Module `ResultsAsWritten` models the `delete` and `get` loops exactly as
written. It uses a PHP array whose `unset` leaves holes, and exhibits the
defects listed under Findings. The rest of the model uses the corrected
definitions.

The model follows the code:
- `permanent` and `flash` always append a record. They never replace a record
  of the same name in place.
- `get` returns a plain list of values, not a name-to-value map.
- `get` has no lookup by name.
- The code has no locking or compare-and-swap. Each operation is one read and
  one write of `"_RESULTS"`, and the model has no concurrency.

Target semantics are those of PHP 8:
- `strpos` finds the empty needle at index 0.
- `count(null)` is an error.
- `strtolower` and `ucfirst` map ASCII letters only.

## Model

| member | source | states |
|---|---|---|
| Session.Start | Alexya/Tools/Session/Session.php:50-60 | the collection is built from the loaded `$_SESSION`, so the two mirrors start equal and every variable reads as loaded |
| Session.Get | Alexya/Tools/Session/Session.php:98-105 | a key missing from the collection yields the default; on a mirrored session a present key yields its stored value, although it is read from `$_SESSION` |
| Session.Set | Alexya/Tools/Session/Session.php:83-88 | afterwards the key exists and `get` returns the new value whatever the default; every other key reads as before; the mirrors stay equal |
| Session.DeleteByKey | Alexya/Tools/Session/Session.php:67-75 | an absent key changes nothing; a present key leaves both the collection and `$_SESSION`; `get` then returns the default; other keys and the mirror invariant are untouched |
| Session.DeleteUndoesSet | Alexya/Tools/Session/Session.php:67-88 | on a mirrored session, deleting a key after setting it gives the same session as deleting it directly |
| ResultList.Remove | Alexya/Tools/Session/Results.php:92-103 | no record called `name` survives delete; when none had that name, the list is unchanged |
| ResultList.RemoveSplit | Alexya/Tools/Session/Results.php:96-100 | delete decides record by record and keeps the survivors in their original order |
| ResultList.RemoveIdempotent | Alexya/Tools/Session/Results.php:92-103 | deleting a name twice equals deleting it once |
| ResultList.Start | Alexya/Tools/Session/Results.php:119-122 | a positive offset skips that many records, or all of them when it exceeds the list; a non-positive offset skips none |
| ResultList.Stop | Alexya/Tools/Session/Results.php:130-132 | the window holds at most `length` records, and runs to the end when `length` is negative |
| ResultList.Evict | Alexya/Tools/Session/Results.php:126-135 | the list written back keeps the skipped prefix unchanged and is shorter by exactly the number of flash records in the window |
| ResultList.KindPartition | Alexya/Tools/Session/Results.php:126-128 | a window's records are exactly its permanent ones plus its flash ones, counted as a multiset |
| ResultList.EvictRemovesWindowFlashes | Alexya/Tools/Session/Results.php:118-135 | the records `get` removes are exactly the flash records it collected; the multiset of records written back plus those equals the multiset read |
| ResultList.Collect | Alexya/Tools/Session/Results.php:115-133 | the read loop returns the window's values in insertion order, and its kept list is the skipped prefix, the window's permanent records and the untouched rest |
| ResultList.ReadAgainAll | Alexya/Tools/Session/Results.php:21-22 | reading to the end twice: the second window is exactly the permanent records of the first |
| ResultList.ReadAgain | Alexya/Tools/Session/Results.php:113-135 | for any length, the second read starts with the first read's permanent records in order, then continues only with records beyond the first window |
| Results.Initialize | Alexya/Tools/Session/Results.php:40-47 | binds the session; an existing `"_RESULTS"` is left untouched; a missing one becomes the empty list; nothing else changes |
| Results.InitializeIdempotent | Alexya/Tools/Session/Results.php:40-47 | initializing the session produced by `initialize` changes nothing |
| Results.Permanent | Alexya/Tools/Session/Results.php:55-66 | the list read back is the old one plus exactly one permanent record at the end, even when the name already exists; without `initialize` it fails; a missing list becomes a one-record list; other variables are untouched |
| Results.Flash | Alexya/Tools/Session/Results.php:74-85 | the same as `permanent`, with a flash record |
| Results.Delete | Alexya/Tools/Session/Results.php:92-103 | the list read back is the old one without the named records; an unreadable list is an error; other variables are untouched |
| Results.Get | Alexya/Tools/Session/Results.php:113-138 | returns the window's values in order and writes back the list with the window's flash records evicted, in one session write; errors when unbound or when the list is missing |
| Results.FlashReadOnce | Alexya/Tools/Session/Results.php:21 | a flash result is returned by the first read past the earlier records, and not by the second; the list returns to what it was before the flash |
| Results.PermanentDurable | Alexya/Tools/Session/Results.php:22 | a permanent result is returned by both reads and stays stored |
| Results.ReadTwice | Alexya/Tools/Session/Results.php:113-135 | with the default length, a second read over the same window returns exactly the permanent values of the first, and the list is then stable |
| ResultsAsWritten.DeleteAsWritten | Alexya/Tools/Session/Results.php:92-103 | `delete` as written only unsets keys: every record stays at its index or is gone, none moves; `ResultsAsWritten.DeleteIgnoresName` shows it unsets nothing for a non-empty name |
| ResultsAsWritten.GetAsWritten | Alexya/Tools/Session/Results.php:113-138 | `get` as written unsets only flash records, leaving every other record at its index, and returns at most one value per record; `ResultsAsWritten.GetLengthComparesIndex` and `ResultsAsWritten.GetSkipsAfterEviction` show where it departs from the window |
| ResultsAsWritten.DeleteIgnoresName | Alexya/Tools/Session/Results.php:96-100 | as written, `delete` with any non-empty name leaves the array unchanged, so records of that name remain |
| ResultsAsWritten.DeleteLoopMisses | Alexya/Tools/Session/Results.php:96-100 | a delete loop whose test is false never alters the array |
| ResultsAsWritten.GetLengthComparesIndex | Alexya/Tools/Session/Results.php:130-132 | as written, `get(1, 0)` over three permanent records returns two values where the window holds one |
| ResultsAsWritten.GetSkipsAfterEviction | Alexya/Tools/Session/Results.php:118-128 | as written, `get()` over two flash records returns only the first and leaves the second stored |
| Str.Strrpos | Alexya/Tools/Str.php:37 | PHP's `strrpos` with a non-positive offset returns the last occurrence starting at or before `strlen($h) + $offset`, or none when there is none |
| Str.StartsWith | Alexya/Tools/Str.php:33-43 | `""` starts every string and a longer needle starts none; `Str.StartsWithIsPrefix` proves it is exactly the prefix test |
| Str.StartsWithIsPrefix | Alexya/Tools/Str.php:33-43 | `startsWith` holds exactly when `starts` is a prefix of `base`, so always for `""` |
| Str.EndsWith | Alexya/Tools/Str.php:53-69 | `""` ends every string and a longer needle ends none; `Str.EndsWithIsSuffix` proves it is exactly the suffix test |
| Str.EndsWithIsSuffix | Alexya/Tools/Str.php:53-69 | `endsWith` holds exactly when `ends` is a suffix of `base`; `""` always ends it and a longer needle never does |
| Str.Contains | Alexya/Tools/Str.php:82-103 | a string needle is found iff `strpos` finds it; an array holds iff some element is contained; any other value gives false |
| Str.ContainsFrom | Alexya/Tools/Str.php:84-91 | the `foreach` over an array needle succeeds iff some remaining element is contained |
| Str.ContainsIsSubstring | Alexya/Tools/Str.php:93-102 | a string needle is contained iff it occurs as a contiguous substring; the empty array is never contained |
| Str.Strpos | Alexya/Tools/Str.php:98 | the search `contains` and `endsWith` rely on returns the first occurrence at or after the offset, or none when there is no occurrence |
| Str.Snake | Alexya/Tools/Str.php:122-124 | the snake form of a word array has no upper-case ASCII letter; `[]` gives `""` and one word gives it lower-cased; `Str.SnakeLowersWords` and `Str.SnakeRoundTrip` give its full shape |
| Str.SnakeLowersWords | Alexya/Tools/Str.php:122-124 | the snake form of a word array is the lower-cased words joined by `_` |
| Str.SnakeRoundTrip | Alexya/Tools/Str.php:122-124 | splitting the snake form at `_` gives back the lower-cased words, for a non-empty array of words without `_` |
| Str.SnakeExample | Alexya/Tools/Str.php:112 | `["users", "orm"]` gives `users_orm` |
| Str.Camel | Alexya/Tools/Str.php:166-176 | an empty array is an error; otherwise the result is the first word, then every later word with its first byte upper-cased |
| Str.CamelIgnoringCase | Alexya/Tools/Str.php:168-176 | up to case, the camel form is the plain concatenation of the words |
| Str.CamelExample | Alexya/Tools/Str.php:158 | `["users", "orm"]` gives `usersOrm` |

## Findings

| source | as written | input that shows it | evidently intended | confidence | as-written member | corrected member |
|---|---|---|---|---|---|---|
| Alexya/Tools/Session/Results.php:97 | the test reads `$result[$i]`, but `$result` is undefined, so it compares `null == $name`, which holds only for `""` | `delete("a")` on `[permanent a=1]` leaves the record in place | remove every record called `$name` | high, not executed | ResultsAsWritten.DeleteIgnoresName | ResultList.Remove, used by Results.Delete |
| Alexya/Tools/Session/Results.php:130 | `$length == $i` compares the length with the absolute index | `get(1, 0)` on `[permanent a=1, permanent b=2, permanent c=3]` returns `[1, 2]` | stop once `$length` values are collected | high, not executed | ResultsAsWritten.GetLengthComparesIndex | ResultList.Collect and ResultList.Stop, used by Results.Get |
| Alexya/Tools/Session/Results.php:118-128 | `unset` inside a loop bounded by `count($results)` shrinks the bound, so trailing records are never visited | `get()` on `[flash a=1, flash b=2]` returns `[1]` and leaves `b` stored | visit every record of the window, evicting collected flash records | high, not executed | ResultsAsWritten.GetSkipsAfterEviction | ResultList.Collect, with eviction as filtering (ResultList.EvictRemovesWindowFlashes) |

## Left out

- The session constructor's `session_start` and `stop`'s `session_destroy`: PHP session I/O, cookies and save paths. `Session.Start` takes the loaded variables as a parameter.
- The `Collection` base class is not part of this model. Only plain map semantics are assumed for `keyExists`/`exists`, `set` and `deleteByKey`.
- Concurrency between requests sharing a session: the code has no locking, so nothing is modelled.
- The string-input branches of `snake` and of the camel-case method (`Str.php:131-148`, `Str.php:183-188`): they depend on PCRE regular expressions.
- The `return ""` fallbacks of `snake` and of the camel-case method for an argument that is neither an array nor a string (`Str.php:126-129`, `Str.php:178-181`): `Str.Snake` and `Str.Camel` take word arrays only, so no other argument type can reach them.
- `plural` and `singular`: they delegate to an `Inflector` that is not part of this model.
- Array needles and word arrays are sequences. PHP arrays with arbitrary keys, and non-string words (which `implode` converts), are not modelled.
- Locale-dependent case mapping: `strtolower` and `ucfirst` are ASCII-only, as in PHP 8.
- The namespace mismatch (`Alexya\Session` vs `Alexya\Tools\Session`) and the second declaration of `snake`, which is a fatal error in PHP. The model treats the second declaration as the camel-case method that the documentation and `Str::camel` name.
- ResultList.Remove: names are matched with exact string equality. PHP's loose `==` at `Results.php:97` also equates two numeric strings of equal value (`"01" == "1"`, `"1e1" == "10"`), so such a record would be removed by PHP but is kept by the model; PHP's numeric-string rules are not modelled.
- Results.Delete: inherits the exact name matching of `ResultList.Remove`, so a record whose name is a different numeric string of the same value (`"01"` for `delete("1")`) is kept.
- Results.Delete, Results.Get: a `"_RESULTS"` value that is missing or not a list is reported as `NotAList`, rather than modelling PHP's coercions of other values.
- Results.Permanent, Results.Flash: a non-list `"_RESULTS"` value is reported as `NotAList`. PHP's behaviour varies by value type: `false` is autovivified, while strings and other scalars raise errors.
- ResultsAsWritten: models one call on a freshly read, dense list. It does not model what a later call sees after the as-written loops write back an array with holes.
- Str.Contains: follows PHP 8, where the empty string needle is found. PHP 7's `strpos` instead warns and returns false for it.
