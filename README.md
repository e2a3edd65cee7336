# tartarus data layer and store protocol, in Dafny

This project models the data layer of tartarus, a password store that
keeps GPG-encrypted entries, together with the entry-collection surface of
its store protocol. The model covers these parts:

- **`Ciphertext` text codec** (`base64.dfy`, module `Base64`).
  - `to_base64` is the standard base64 encoding of section 4 of RFC 4648.
  - `from_base64` is CPython's non-validating `b64decode`. It is modelled as the `binascii` decoder's state machine: characters outside the alphabet are skipped, and decoding ends at the `=` that completes a quantum.
  - `StrictDecode` is the validating decoder that the docstring of `from_base64` describes (see Findings).
- **`parse_timestamp`** (`timestamp.dfy`, module `Timestamp`).
  - Trailing `Z`s are stripped. The text must split at exactly one `T`. The time must split into two or three `:` parts. Seconds holding a `.` must split into exactly two parts, and the fraction is cut to six characters.
  - `datetime.strptime` is modelled as a matcher over the formats that `parse_timestamp` builds (`%Y-%m-%dT%H:%M`, then `:%S` or `:%S.%f`). Each directive has the digit widths and ranges its pattern accepts, and `datetime` then applies its calendar checks, leap years included.
  - The method `ParseTimestamp` builds the format and the text step by step, as the source does. It is proved equal to `Parse`, which states the same thing component by component.
  - `Format` is `isoformat()` with `+00:00` written as `Z`, which is what `to_dict` emits.
- **`Entry`** (`data.py` → `data.dfy`, module `Data`).
  - `__eq__` compares all seven fields; `__hash__` hashes the id alone.
  - `from_dict` is a method. It visits the required keys in the set's order and reports a missing one, then checks the timestamp and then the ciphertext. An empty or `None` `identity`/`meta` becomes `None`.
  - `to_dict` writes the seven keys.
- **`convert_to_snake` and `keys_to_snake_case`** (`snake_case.dfy`, module `SnakeCase`).
  - The two regular-expression substitutions become left-to-right scans, followed by lower-casing.
  - The dictionary comprehension runs over the items in order, so the last of two keys that convert alike wins.
- **`Query` and `Store`** (`store.dfy`, module `EntryStore`).
  - `Query` is a datatype whose four fields default to `None`.
  - `Store` is a class over the sequence of its entries. `put` and `remove` change it in place. `query` and `get_count_of_key_id` are loops proved against the specification functions `Select` and `CountKey`.

`text.dfy` (module `Text`) holds the string helpers: ASCII character classes, digits, Python's `str.split`, `rstrip` and slicing. `wrappers.dfy` holds `Option` and `Result`.

## Model

| member | source | states |
|---|---|---|
| Base64.Encode | tartarus/data.py:50-56 | `to_base64` writes 4·⌈n/3⌉ characters, all from the RFC 4648 alphabet or `=` |
| Base64.EncodePadding | tartarus/data.py:50-56 | exactly the last (3 − n mod 3) mod 3 characters of the encoding are `=` |
| Base64.ValueOfCharOf | tartarus/data.py:50-56 | the alphabet is a bijection between the 64 sextet values and their characters |
| Base64.DecodeEncode | tartarus/data.py:33-56 | `from_base64(to_base64(b)) == b` for every byte string, for the decoder as written |
| Base64.DecodeStopsAtPadding | tartarus/data.py:46 | the decoder as written stops at the `=` that completes the last quantum, ignoring whatever follows |
| Base64.DecodeIgnoresForeign | tartarus/data.py:46 | the decoder as written gives the same result once characters outside the alphabet are removed |
| Base64.DecodeUnpadded | tartarus/data.py:45-48 | without `=`, the decoder succeeds iff the alphabet characters form whole quanta; one extra character is an excess-data error, two or three are a padding error |
| Base64.DecodeForeignIsEmpty | tartarus/data.py:46 | text made only of non-alphabet characters decodes to no bytes instead of failing |
| Base64.Decode | tartarus/data.py:33-48 | the decoder as written refuses non-ASCII text and nothing else for its characters; on ASCII text its only errors are excess data and incorrect padding, never a bad character or length |
| Base64.StrictDecode | tartarus/data.py:33-48 | validating decoding: a success means the text is well-formed base64 and agrees with the decoder as written; non-ASCII text is refused |
| Base64.StrictDecodeAcceptsWellFormed | tartarus/data.py:33-48 | every well-formed ASCII base64 text is accepted |
| Base64.EncodeWellFormed | tartarus/data.py:50-56 | `to_base64` output is well-formed base64: whole quanta, alphabet characters, and `=` only as the final one or two characters |
| Base64.StrictDecodeEncode | tartarus/data.py:33-56 | `to_base64` output is always accepted and decodes back to the bytes |
| Base64.StrictDecodeRejectsForeign | tartarus/data.py:45-48 | a character outside the alphabet before the padding is an error, not skipped |
| Base64.LenientDecodeAcceptsGarbage | tartarus/data.py:33-48 | `"!!!"` decodes to empty bytes as written, and is an error under validation |
| Timestamp.Checked | tartarus/data.py:158 | a result exists iff the fields form a valid `datetime` (month 1–12, day within the month with leap years, hour < 24, minute and second < 60, microsecond < 10⁶); otherwise the error is out-of-range |
| Timestamp.Strptime | tartarus/data.py:158 | every `datetime` that `strptime` returns is valid |
| Timestamp.Parse | tartarus/data.py:100-158 | every timestamp `parse_timestamp` returns is a valid `datetime` |
| Timestamp.ParseTimestamp | tartarus/data.py:100-158 | building `fmt` and `timestamp_str` step by step and matching once gives exactly the component-wise result |
| Timestamp.RescanHourMinute | tartarus/data.py:136-139 | `%Y-%m-%dT%H:%M` on the rebuilt text reads the same fields as the date and the two time parts separately |
| Timestamp.RescanSeconds | tartarus/data.py:152-155 | the same after appending `:%S` and the seconds |
| Timestamp.RescanFraction | tartarus/data.py:143-151 | the same after appending `:%S.%f` and the seconds with the fraction cut to six characters |
| Timestamp.Format | tartarus/data.py:279 | the written timestamp is 20 characters, or 27 with a fraction, with `T` at position 10 and a final `Z` |
| Timestamp.FormatLayout | tartarus/data.py:279 | the written timestamp is an RFC 3339 `date-time` with offset `Z`: `-` at positions 4 and 7, `T` at 10, `:` at 13 and 16, digit groups at 0–3, 5–6, 8–9, 11–12, 14–15 and 17–18 reading back as year, month, day, hour, minute and second, and, for a non-zero microsecond, `.` at 19 followed by six digits reading back as the microsecond |
| Timestamp.ParseFormat | tartarus/data.py:100-158 | `parse_timestamp` reads back every valid UTC `datetime` that `to_dict` writes |
| Timestamp.ParseFraction | tartarus/data.py:143-150 | fraction digits beyond six are cut, not rounded: any text after the six written characters that holds no `T`, `:` or `.` and does not end in `Z` leaves the result unchanged |
| Timestamp.ParseSeconds | tartarus/data.py:152-155 | with whole seconds and no fraction, the microsecond reads back as 0 |
| Timestamp.ParseMinutes | tartarus/data.py:129-139 | with only hours and minutes, seconds and microseconds read back as 0 |
| Timestamp.ReadBack | tartarus/data.py:158 | the fields `strptime` does not see default to zero |
| Timestamp.ParseIgnoresTrailingZ | tartarus/data.py:123 | a trailing `Z` is optional: adding one never changes the result |
| Timestamp.ParseSeparator | tartarus/data.py:126 | the separator error happens iff the text, with trailing `Z`s stripped, does not hold exactly one `T` |
| Timestamp.ParseShape | tartarus/data.py:129-147 | with one `T`, the format error happens iff the time holds neither one nor two `:`, or holds two and the seconds part holds more than one `.` |
| Timestamp.TruncationExample | tartarus/data.py:113-114 | `2023-06-07T02:58:54.640805116Z` parses to microsecond 640805 |
| Timestamp.FractionLettersExample | tartarus/data.py:143-150 | `2023-06-07T02:58:54.640805abcZ` parses to microsecond 640805: the characters past the sixth are never read |
| Timestamp.SecondsExample | tartarus/data.py:116-117 | `2023-06-07T02:58:54Z` parses with microsecond 0 |
| Timestamp.MinutesExample | tartarus/data.py:119-120 | `2023-06-07T02:58Z` parses with second 0 |
| Text.SplitCount | tartarus/data.py:126 | `str.split` yields one more part than there are separators, which is what the unpacking and the length checks count |
| Text.JoinSplit | tartarus/data.py:126 | `str.split` loses nothing: joining the parts with the separator gives the text back |
| Data.Equals | tartarus/data.py:216-227 | field-wise equality holds iff the two entries are the same value |
| Data.EqualsHashKey | tartarus/data.py:213-227 | equal entries have equal hashes |
| Data.HashKeyById | tartarus/data.py:213-214 | two entries hash alike iff their ids are equal |
| Data.HashKeyCollision | tartarus/data.py:213-214 | equal hashes do not imply equal entries: same id with another description |
| Data.Optional | tartarus/data.py:259-269 | an optional field is kept iff present, not `None` and not empty, and then it is the dictionary's string |
| Data.DecodedChecks | tartarus/data.py:245-270 | a bad timestamp is reported whatever the ciphertext; a bad ciphertext only after a good timestamp; a result carries the parsed timestamp, the decoded bytes and the id, key id and description unchanged |
| Data.DecodedAsWritten | tartarus/data.py:229-270 | the checks of `from_dict` with the lenient decoder as written: a result carries exactly what `Base64.Decode` gives for the ciphertext text |
| Data.DecodedAgrees | tartarus/data.py:245-257 | the as-written and the validating checks give the same entry whenever the validating one succeeds, the same timestamp error, and the same error whenever the as-written one fails |
| Data.GarbageCiphertextAccepted | tartarus/data.py:252-257 | with a good timestamp and ciphertext `"!!!"`, the as-written checks return an entry with an empty ciphertext, where the validating ones report an invalid ciphertext |
| Data.FromDict | tartarus/data.py:229-270 | a missing-key error happens iff some required key is absent, and it names an absent required key; with all keys present the result is the checked decoding |
| Data.ToDict | tartarus/data.py:272-286 | exactly the seven keys are written, the required ones as strings |
| Data.FromDictToDict | tartarus/data.py:229-286 | `from_dict(to_dict(e)) == e` for every entry with a valid timestamp and no empty identity or meta |
| Data.EmptyIdentityLost | tartarus/data.py:259-286 | an empty identity does not survive the round trip: it is read back as `None` |
| Data.ToDictFromDict | tartarus/data.py:229-286 | an entry read by `from_dict` never holds an empty optional string, so writing it and reading it again gives the same entry |
| SnakeCase.ConvertToSnake | tartarus/data.py:289-299 | the result holds no capital letters |
| SnakeCase.ConvertNoUpper | tartarus/data.py:289-299 | a name without capitals comes back unchanged |
| SnakeCase.ConvertIdempotent | tartarus/data.py:289-299 | converting twice is converting once |
| SnakeCase.SplitWordsLetters | tartarus/data.py:298 | the first substitution only inserts underscores |
| SnakeCase.SplitCapitalsLetters | tartarus/data.py:299 | the second substitution only inserts underscores |
| SnakeCase.ConvertLetters | tartarus/data.py:289-299 | with underscores removed, the result is the lower-cased name with underscores removed |
| SnakeCase.CamelExample | tartarus/data.py:289-299 | `keyId` becomes `key_id` |
| SnakeCase.KeysToSnake | tartarus/data.py:302-311 | the new dictionary's keys are exactly the converted input keys |
| SnakeCase.KeysToSnakeValue | tartarus/data.py:302-311 | each converted key holds the value of the last item whose key converts to it |
| SnakeCase.KeysToSnakeKeepsSnake | tartarus/data.py:302-311 | keys already without capitals are kept as they are |
| EntryStore.Matches | tartarus/store/store.py:7-19 | the query with no fields matches every entry, and the query made of an entry's own fields matches it |
| EntryStore.MatchesEachField | tartarus/store/store.py:7-19 | a query matches iff each of its four fields, taken alone, matches |
| EntryStore.QueryDefaults | tartarus/store/store.py:26-36 | every field of a query made with no arguments is `None` |
| EntryStore.Store.Put | tartarus/store/store.py:89-95 | after `put(e)` the entries are the old ones with `e` in place of the entry with its id, or appended; `e` is among them, ids stay unique, and the count grows by one iff the id was new |
| EntryStore.PutSpec | tartarus/store/store.py:89-95 | after `put(e)` the entries are `e` plus exactly the old entries with other ids; the count grows by one iff the id was new |
| EntryStore.PutIdempotent | tartarus/store/store.py:89-95 | putting the same entry twice is putting it once |
| EntryStore.Store.Remove | tartarus/store/store.py:97-103 | after `remove(e)` the entries are the old ones without those carrying `e`'s id; `e` is gone, ids stay unique, and the count drops by one iff the id was stored |
| EntryStore.RemoveSpec | tartarus/store/store.py:97-103 | after `remove(e)` exactly the old entries with other ids are left; with unique ids the count drops by one iff the id was stored, and is unchanged otherwise |
| EntryStore.RemoveCount | tartarus/store/store.py:97-103 | with unique ids, removing drops exactly one entry when the id is stored and none when it is not |
| EntryStore.RemoveUnique | tartarus/store/store.py:97-103 | removing keeps ids unique |
| EntryStore.RemoveAfterPut | tartarus/store/store.py:89-103 | removing an entry right after putting it leaves what removing it alone leaves |
| EntryStore.Store.QueryEntries | tartarus/store/store.py:105-114 | `query(q)` returns the stored entries that satisfy the query, in store order |
| EntryStore.SelectSpec | tartarus/store/store.py:105-114 | an entry is returned iff it is stored and matches every non-`None` field of the query |
| EntryStore.SelectAllByDefault | tartarus/store/store.py:105-114 | the query with no fields returns every entry |
| EntryStore.QueryExample | tartarus/store/store.py:7-19 | for entries A and B at `github.com` (identities alice and bob) and C at `gitlab.com`: filtering by description gives A and B; adding identity bob gives B; no filter gives all three; an unknown description gives none |
| EntryStore.Store.SelectAll | tartarus/store/store.py:116-122 | `select_all()` returns every stored entry |
| EntryStore.Store.GetCount | tartarus/store/store.py:124-130 | `get_count()` is the length of `select_all()` |
| EntryStore.Store.GetCountOfKeyId | tartarus/store/store.py:132-141 | the count is the number of stored entries under the key id, at most `get_count()` |
| EntryStore.CountKeySpec | tartarus/store/store.py:132-141 | the key count is at most the total, equals it iff every entry has the key, and is zero iff none has |

## Left out

- `Plaintext.random`: it draws from `secrets`, and randomness is not modelled.
- `tartarus/cli.py`, `tartarus/codec/codec.py` and `tartarus/store/abstract_store.py` are not part of this model. They are argument parsing and I/O, calls into GPG, and abstract restatements of the protocol.
- `Store.init`, `Store.sync` and the `Reader`/`Writer` protocols: these are I/O boundaries whose payloads are not defined.
- The `Store` protocol leaves several behaviours open, and the model fixes them as follows.
  - Entry ids are unique (an `EntryId` uniquely identifies an entry).
  - `put` replaces the entry with the same id.
  - `remove` drops the entries with the removed entry's id, and removing an absent entry changes nothing.
  - Results come back in insertion order.
  - A query field matches by string equality.
- `Data.HashKey` models which value `__hash__` hashes, not Python's hash values.
- `Data.Entry` carries no time zone. Every timestamp is UTC, as `parse_timestamp` makes it. `to_dict` on an entry with another offset is not modelled.
- `Data.FromDict`: which missing key is reported when several are missing depends on Python's set iteration order. The contract says only that it is one of the missing required keys.
- `Data.FromDict` and `Data.Decoded` require every required key that is present to hold a string, as `EntryDict` declares. A `None` there makes the source fail with a `TypeError` or `AttributeError`, or carry the `None` into the entry, and the model does not cover that.
- `Data.FromDict` decodes the ciphertext with the validating `Base64.StrictDecode` rather than the lenient `Base64.Decode` (see Findings). The checks as written are `Data.DecodedAsWritten`, and `Data.DecodedAgrees` relates the two.
- `SnakeCase.Lower` lower-cases ASCII letters only; Unicode case mapping is not modelled. Dictionary keys are strings; non-string keys, which `convert_to_snake` cannot take, are left out.
- `Timestamp.Accepts` accepts ASCII digits only. `strptime` also accepts other Unicode decimal digits, and a leading space before a one-digit day; neither is modelled.
- The base64 decoder as written follows the `binascii` decoder of current CPython. Older releases differ in error messages and in when `=` ends decoding.
- Entry equality follows the code. `EntryId` is documented as uniquely identifying an entry (tartarus/data.py:13-14), and `__hash__` hashes the id alone (tartarus/data.py:213-214), but `__eq__` compares all seven fields (tartarus/data.py:216-227). Two entries with the same id can therefore be unequal, as `Data.HashKeyCollision` shows.

## Findings

| source | as written | input that shows it | evidently intended | confidence | as-written member | corrected member |
|---|---|---|---|---|---|---|
| tartarus/data.py:33-48 | `from_base64` calls `b64decode` without `validate=True`, which skips every character outside the alphabet | `"!!!"` decodes to empty bytes instead of raising | the docstring's `ValueError` for any text that is not valid base64 | not executed | Base64.LenientDecodeAcceptsGarbage | Base64.StrictDecode |
| tartarus/data.py:252-257 | `from_dict` passes the ciphertext text to the lenient `from_base64` | a dictionary with a valid timestamp and ciphertext `"!!!"` gives an entry with an empty ciphertext instead of `Invalid ciphertext format` | the `ValueError` for a ciphertext that is not valid base64 | not executed | Data.GarbageCiphertextAccepted | Data.FromDict |
