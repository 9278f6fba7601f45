# Password credentials and sessions of a FastAPI login backend

This project models the authentication core of a small user-registration and
login backend (`helpers/auth.py`) and proves properties of it in Dafny.

- **Password credential.** `hash_password` writes
  `pbkdf2_sha256$600000$<base64 salt>$<base64 key>`; `verify_password` splits a
  stored credential on `$` with at most three cuts, refuses any tag other than
  `pbkdf2_sha256`, reads the iteration count with `int`, base64-decodes salt and
  key, derives the key again and compares. Modelled as functions
  (`Credential.HashPassword`, `Credential.VerifyPassword`) over the string
  operations they use (`Text`: `str.split` with a limit, `sep.join`, `str(n)`,
  `int(s)`, `str.strip`), `base64.b64encode` / `b64decode` (`Base64`) and
  UTF-8 encoding (`Bytes`). The exceptions `verify_password` raises become the
  `Err` cases of a `Result`.
- **Sessions.** `session_store` is a class `Sessions.SessionStore` with a
  `map<string, Session>` field; `auth_required` is its method `AuthRequired`,
  which takes the cookie value (`Option<string>`) and the current time and
  returns `Authorized(session)` or `Unauthorized` (the HTTP 401). It has no
  `modifies` clause: the table is only read. `SessionTtl` is seven days and the
  test is strict, so a session exactly seven days old is still accepted.

Files: `wrappers.dfy` (Option, Result), `text.dfy`, `bytes.dfy`, `base64.dfy`,
`credential.dfy`, `session.dfy`.

On an expired session `auth_required` executes `del session`, which only
unbinds the local name: the expired entry stays in `session_store`. The model
follows that code rather than a design that deletes the expired entry on
lookup (`Sessions.Lifecycle` shows a second lookup rejected because the entry
is still expired, not because it was removed). The code has no session
creation and no logout, so neither is modelled beyond the `Insert` used to
build tables.

## Model

| member | source | states |
|---|---|---|
| Text.IndexOf | helpers/auth.py:70 | the position where `split` cuts: it holds the separator, or it is the length of the string when there is none |
| Text.CutAtFirst | helpers/auth.py:70 | the string is the text before the first separator, the separator and the rest, and no separator occurs before it |
| Text.NotFound | helpers/auth.py:70 | when no position is found the separator does not occur at all |
| Text.Split | helpers/auth.py:70 | `split("$", 3)` yields between one and four parts |
| Text.JoinSplit | helpers/auth.py:70 | joining the parts of a split with the separator gives back the original string |
| Text.SplitLength | helpers/auth.py:70 | a split has one part more than the number of separators capped at the cut limit |
| Text.SplitPartsFree | helpers/auth.py:70 | no part but the last holds a separator |
| Text.CountJoin | helpers/auth.py:64 | a `$`-join of fields of which only the last may hold `$` has one `$` per joint plus those of the last field |
| Text.SplitLastCount | helpers/auth.py:70 | the last part holds exactly the separators no cut used |
| Text.SplitJoin | helpers/auth.py:64-70 | splitting a `$`-join of fields, only the last of which may hold `$`, gives back the fields |
| Text.DecimalString | helpers/auth.py:64 | `str(n)` is a non-empty string of digits without a leading zero |
| Text.ParseInt | helpers/auth.py:75 | `int(s)` answers only for an optional sign followed by one to 4300 ASCII digits, and a number without a minus sign is not negative |
| Text.DecimalLength | helpers/auth.py:75 | a number below `10^k` has at most `k` decimal digits |
| Text.ParseDecimal | helpers/auth.py:64-75 | `int(str(n)) == n` for every number of at most 4300 digits |
| Text.Strip | helpers/auth.py:61-62 | `strip()` never lengthens a string, and what it leaves neither starts nor ends with whitespace |
| Text.StripSlice | helpers/auth.py:61-62 | `strip()` returns the slice of its input that starts where the leading whitespace ends |
| Text.StripMargins | helpers/auth.py:61-62 | every character `strip()` removes, before or after that slice, is whitespace |
| Text.StripIdempotent | helpers/auth.py:61-62 | stripping a stripped string changes nothing |
| Text.StripUnpadded | helpers/auth.py:61-62 | `strip()` leaves a string that neither starts nor ends with whitespace unchanged |
| Bytes.Utf8Encode | helpers/auth.py:59 | `password.encode("utf-8")` takes one to four bytes per character |
| Bytes.LeadAnnouncesLength | helpers/auth.py:59 | the lead byte of a character's encoding announces how many bytes it takes |
| Bytes.Utf8CharInjective | helpers/auth.py:59 | two characters with the same encoding are the same character |
| Bytes.Utf8Injective | helpers/auth.py:59 | two strings with the same UTF-8 encoding are the same string |
| Base64.Encode | helpers/auth.py:61-62 | `b64encode` output has length 4·⌈n/3⌉ and only alphabet characters and `=` |
| Base64.NotInEncoding | helpers/auth.py:61-62 | no character outside the alphabet and `=`, in particular `$`, occurs in an encoding |
| Base64.Run | helpers/auth.py:76-77 | the decoding loop only appends to what it has emitted, at most three bytes for every four characters read |
| Base64.Decode | helpers/auth.py:76-77 | `b64decode` succeeds only on ASCII text and yields at most three bytes per four characters |
| Base64.RunGroup | helpers/auth.py:76-77 | decoding a full four-character group emits its three bytes and starts a new quad |
| Base64.RunPadTwo | helpers/auth.py:76-77 | decoding a lone byte's padded group emits that byte and stops at the second `=` |
| Base64.RunPadOne | helpers/auth.py:76-77 | decoding a padded pair of bytes emits both bytes and stops at the `=` |
| Base64.RunEncode | helpers/auth.py:76-77 | the decoding loop run over an encoding emits exactly the encoded bytes |
| Base64.DecodeEncode | helpers/auth.py:61-77 | `b64decode(b64encode(b)) == b` |
| Credential.EncodeField | helpers/auth.py:61-62 | `b64encode(b).decode("ascii").strip()` is the plain encoding and holds no `$` |
| Credential.EncodingUnpadded | helpers/auth.py:61-62 | `strip()` finds nothing to remove around a base64 encoding |
| Credential.Format | helpers/auth.py:64 | the f-string is the `$`-join of the four fields |
| Credential.FieldsFree | helpers/auth.py:64 | none of the four fields holds `$`: the first three as the split requires, and the last too |
| Credential.FormatFields | helpers/auth.py:64-70 | a credential string has exactly three `$`, and `split("$", 3)` gives back its four fields |
| Credential.HashPassword | helpers/auth.py:48-64 | `hash_password` gives exactly three `$` and four fields: `pbkdf2_sha256`, `600000`, the encoded salt, the encoded derived key |
| Credential.SixHundredThousand | helpers/auth.py:57-64 | the iteration field is the text `600000` |
| Credential.EncodedSaltLength | helpers/auth.py:56-61 | the 16-byte salt is written as 24 base64 characters |
| Credential.VerifyPassword | helpers/auth.py:66-81 | `verify_password` answers only for a credential with at least three `$`, the `pbkdf2_sha256` tag, an iteration count in 1..INT_MAX and two fields that decode |
| Credential.IterationDigits | helpers/auth.py:75-79 | an iteration count `pbkdf2_hmac` accepts has at most ten digits |
| Credential.ParseIterations | helpers/auth.py:64-75 | the iteration field of an accepted count reads back as that count |
| Credential.DecodeField | helpers/auth.py:61-77 | a base64 field decodes to the bytes written into it |
| Credential.VerifyAccepts | helpers/auth.py:70-81 | once the tag matches and every field reads back, the answer is the comparison of the derived key with the stored key |
| Credential.VerifyFields | helpers/auth.py:70-81 | any credential that splits into a well-formed set of fields verifies to that comparison |
| Credential.VerifyFormatted | helpers/auth.py:70-81 | against a well-formed credential `verify_password` returns true exactly when the re-derived key equals the stored key |
| Credential.VerifyHashPassword | helpers/auth.py:48-81 | `verify_password(p, hash_password(p))` is true; another password verifies exactly when it derives the same key |
| Credential.OtherPasswordCollides | helpers/auth.py:48-81 | a password other than the hashed one verifies only when two different UTF-8 inputs derive the same key |
| Credential.DistinctSalts | helpers/auth.py:56-64 | two different salts give two different credential strings for one password |
| Credential.TooFewFields | helpers/auth.py:70 | unpacking fails exactly when the credential has fewer than three `$` |
| Credential.UnknownAlgorithm | helpers/auth.py:70-73 | the unsupported-algorithm error is raised exactly when there are enough fields and the tag is not `pbkdf2_sha256`; no answer is ever given for another tag |
| Credential.LastFieldAbsorbsRest | helpers/auth.py:70 | with three or more `$` there are four fields, the first three `$`-free, the last holding the rest, extra `$` included |
| Sessions.Lookup | helpers/auth.py:27-44 | a session is returned only for a present, stored id, it is the stored session, and it is not expired |
| Sessions.SessionStore.constructor | helpers/auth.py:25 | the table starts empty |
| Sessions.SessionStore.AuthRequired | helpers/auth.py:27-44 | the result is the lookup outcome; on success the id is present, stored, and the stored session is returned; the table is not modified |
| Sessions.LookupCases | helpers/auth.py:27-44 | accepted exactly when the id is present, stored and not older than the TTL; rejected exactly when absent, unknown or expired |
| Sessions.TtlBoundary | helpers/auth.py:15-41 | a session exactly seven days old is accepted, one microsecond older is rejected |
| Sessions.RejectionIsFinal | helpers/auth.py:38-41 | against the same table, a rejection stays a rejection at every later time |
| Sessions.FreshSessionAccepted | helpers/auth.py:20-44 | a session looked up at its creation time is returned as stored |
| Sessions.InsertElsewhere | helpers/auth.py:31-34 | storing under one id does not change the lookup of another |
| Sessions.Lifecycle | helpers/auth.py:34-41 | accepted at creation and at seven days, rejected after, rejected again on a second lookup while the entry stays in the table |

## Left out

- PBKDF2-HMAC-SHA256 (`hashlib.pbkdf2_hmac`) is a function parameter `kdf` of (password bytes, salt, iterations): the model assumes only that it is deterministic. Its refusal of iteration counts below 1 or above C's `INT_MAX` is modelled as the error `IterationsOutOfRange`.
- `os.urandom(16)` is replaced by a salt parameter of 16 bytes; `secrets.token_urlsafe` (`create_session_id`) is not modelled, session ids are given to `Insert`.
- `hmac.compare_digest` is modelled as byte-sequence equality; its constant-time behaviour is a side-channel property, not a functional one.
- `datetime.now(tz=timezone.utc)` is the parameter `now`; times are integer microseconds, so time zones and the pydantic `default_factory` for `created_at` are not modelled.
- FastAPI `Cookie`, `Depends`, `HTTPException` and `AuthRequiredDep` are replaced by the `Option` argument and the `AuthResult` datatype.
- ParseInt: Python's `int()` also accepts surrounding whitespace, underscores between digits and non-ASCII decimal digits; the model rejects those iteration fields as `InvalidIterations`. The 4300-digit limit is modelled with CPython's default value; a process that changes it with `sys.set_int_max_str_digits` is not.
- DecimalString: `str(n)` raises `ValueError` for a number of more than 4300 digits; the model writes any number. It is only applied to 600000 and to iteration counts of at most ten digits.
- Utf8Encode: Python strings may hold lone surrogates, on which `encode("utf-8")` raises; Dafny characters are Unicode scalar values, so that error path does not exist in the model.
- Base64 decoding follows CPython's non-strict `a2b_base64` (skip non-alphabet characters, stop after completed padding, reject a dangling character or missing padding); error messages are reduced to three error constructors.
- routes/users.py (HTTP handlers and pydantic length limits), db/tables.py (table declarations) and main.py (application wiring) are not part of this model.
- Concurrency and sharing of `session_store` between processes are not modelled; the code has none.
