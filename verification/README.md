# Basic authentication and PII log redaction, modelled in Dafny

This project models three small pieces of a Flask API and its logging helper:

- **`Auth`** (`0x01-Basic_authentication/api/v1/auth/auth.py`). This covers:
  - the path gate `require_auth`, which may extend the caller's excluded-path list in place;
  - the header lookup `authorization_header`;
  - the `current_user` stub.
- **`BasicAuth`** (`0x01-Basic_authentication/api/v1/auth/basic_auth.py`). This is the Basic-scheme pipeline:
  - take the token after `"Basic "`;
  - Base64-decode it, then UTF-8-decode it;
  - split it at the first `:`;
  - pick the first stored user whose password check succeeds;
  - `current_user` composes these steps.
- **PII redaction** (`0x00-personal_data/filtered_logger.py`). This covers:
  - `filter_datum`, which runs one `re.sub(field + "=.*?" + separator, …)` pass per field;
  - `RedactingFormatter`, which renders a log record and passes the result through `filter_datum`.

Modules:

- `Values`: `Option`, a small model of Python values (`PNone | PStr | POther`) for the `type(x) is not str` guards, and bytes.
- `Auth`: `require_auth` is a method that updates a `PathList` object in place. It is proved against the specification functions `Decision` and `ListAfter`.
- `Utf8`: strict UTF-8 as defined in section 3 of RFC 3629.
- `Base64`: the standard alphabet with `=` padding, as in section 4 of RFC 4648.
- `BasicAuth`: the four stages and their composition. The user store and the password check are parameters.
- `FilteredLogger`:
  - the non-greedy match is modelled as a first-separator search;
  - one `re.sub` pass is a left-to-right scan whose matches do not overlap;
  - `filter_datum` is a loop proved against the fold over the field list;
  - the formatter renders a record with the `[HOLBERTON]` template and is a class that fixes its field list when it is built.

Python's `None` results and caught exceptions become `Option.None`. `IndexError` from `path[-1]` is the `Verdict.IndexError` outcome.

## Model

| member | source | states |
|---|---|---|
| Auth.Normalize | 0x01-Basic_authentication/api/v1/auth/auth.py:25-26 | the path ends in `/` afterwards; it is unchanged when it already did, else exactly one `/` is appended |
| Auth.Extended | 0x01-Basic_authentication/api/v1/auth/auth.py:27-28 | the list ends in the element `"/"` afterwards; it is unchanged when it already did, else exactly that element is appended and no other element is normalised |
| Auth.Decision | 0x01-Basic_authentication/api/v1/auth/auth.py:15-31 | a `None` path, or a `None` or empty list, gives `True` with no indexing; the call raises `IndexError` exactly when the path is `""` and the list is non-empty |
| Auth.PathList.constructor | 0x01-Basic_authentication/api/v1/auth/auth.py:15 | the caller's list object holds exactly the elements it is built with |
| Auth.ListAfter | 0x01-Basic_authentication/api/v1/auth/auth.py:21-28 | the caller's list is untouched for a `None` or empty path or an empty list; for any other path and non-empty list it is `Extended` of the list; in every case it is either the same list or the same list plus one `"/"` |
| Auth.RequireAuth | 0x01-Basic_authentication/api/v1/auth/auth.py:15-31 | the answer is `Decision` on the caller's original list, and the caller's list object afterwards holds `ListAfter` of it (the in-place `+=`) |
| Auth.SlashedPathSameAnswer | 0x01-Basic_authentication/api/v1/auth/auth.py:25-26 | for a non-empty `p` that does not end in `/`, `p` and `p + "/"` get the same answer and leave the list the same way |
| Auth.ExemptIff | 0x01-Basic_authentication/api/v1/auth/auth.py:25-31 | the answer is `False` iff the slash-normalised path is an element of the original list, or the path is `"/"`; membership is exact element equality |
| Auth.RootAlwaysExempt | 0x01-Basic_authentication/api/v1/auth/auth.py:27-30 | `"/"` is exempt against every non-empty list |
| Auth.UnslashedEntryExemptsOnlyRoot | 0x01-Basic_authentication/api/v1/auth/auth.py:27-31 | an entry written without a trailing slash exempts no path; with it alone only `"/"` is exempt |
| Auth.ExactMatchOnly | 0x01-Basic_authentication/api/v1/auth/auth.py:29-31 | a listed path that ends in `/` is exempt; a longer path below it (a suffix not ending in `/` appended) is not, unless that longer path with a trailing `/` is listed (no prefix matching) |
| Auth.ExtendedListStable | 0x01-Basic_authentication/api/v1/auth/auth.py:27-28 | once the list ends in `"/"`, no further call changes it |
| Auth.RepeatedCallsAddAtMostOneSlash | 0x01-Basic_authentication/api/v1/auth/auth.py:27-28 | any series of calls leaves the list as it was or with one `"/"` appended |
| Auth.AuthorizationHeader | 0x01-Basic_authentication/api/v1/auth/auth.py:33-41 | `None` without a request; otherwise the `Authorization` value exactly when the header is present, else `None` |
| Auth.CurrentUser | 0x01-Basic_authentication/api/v1/auth/auth.py:43-49 | always `None` |
| Utf8.EncodeChar | 0x01-Basic_authentication/api/v1/auth/basic_auth.py:37 | one to four bytes per character, one exactly for ASCII |
| Utf8.Encode | 0x01-Basic_authentication/api/v1/auth/basic_auth.py:37 | between one and four bytes per character |
| Utf8.DecodeChar | 0x01-Basic_authentication/api/v1/auth/basic_auth.py:39 | a decoded character takes one to four bytes, all present in the input |
| Utf8.Decode | 0x01-Basic_authentication/api/v1/auth/basic_auth.py:39 | a decoded string is never longer than its bytes |
| Utf8.DecodeEncode | 0x01-Basic_authentication/api/v1/auth/basic_auth.py:37-39 | decoding the encoding of any string gives it back |
| Utf8.EncodeDecode | 0x01-Basic_authentication/api/v1/auth/basic_auth.py:39 | whatever the strict decoder accepts re-encodes to exactly the same bytes (no overlong or other alternative forms) |
| Utf8.EncodeAscii | 0x01-Basic_authentication/api/v1/auth/basic_auth.py:37 | an ASCII string encodes to its code points, one byte per character |
| Base64.Symbol | 0x01-Basic_authentication/api/v1/auth/basic_auth.py:38 | every 6-bit value has an alphabet symbol |
| Base64.ValueOf | 0x01-Basic_authentication/api/v1/auth/basic_auth.py:38 | the value of a symbol is below 64 and maps back to the symbol |
| Base64.Discard | 0x01-Basic_authentication/api/v1/auth/basic_auth.py:38 | non-strict decoding keeps only alphabet symbols and `=` |
| Base64.DiscardKeepsClean | 0x01-Basic_authentication/api/v1/auth/basic_auth.py:38 | input made only of symbols and `=` is kept whole |
| Base64.DiscardAppend | 0x01-Basic_authentication/api/v1/auth/basic_auth.py:38 | the bytes kept from `a + b` are those kept from `a` followed by those kept from `b`, so the filter keeps order |
| Base64.DiscardOne | 0x01-Basic_authentication/api/v1/auth/basic_auth.py:38 | a single byte is kept iff it is an alphabet symbol or `=` |
| Base64.DecodeLast | 0x01-Basic_authentication/api/v1/auth/basic_auth.py:38 | the final quantum yields one to three bytes |
| Base64.DecodeQuanta | 0x01-Basic_authentication/api/v1/auth/basic_auth.py:38 | accepted input is whole quanta of four: its length is four per started group of three decoded bytes |
| Base64.DecodeQuantaAccepts | 0x01-Basic_authentication/api/v1/auth/basic_auth.py:38 | accepted input holds alphabet symbols everywhere but the last two places, and `=` in the next-to-last place only before a final `=` |
| Base64.Decode | 0x01-Basic_authentication/api/v1/auth/basic_auth.py:38 | when `b64decode` succeeds, the kept symbols are exactly as many as the encoding of the result has |
| Base64.Encode | 0x01-Basic_authentication/api/v1/auth/basic_auth.py:38 | the encoding is four symbols or pads per started group of three bytes |
| Base64.EncodeText | 0x01-Basic_authentication/api/v1/auth/basic_auth.py:37-38 | the encoding as text is ASCII, one character per symbol |
| Base64.DecodeEncode | 0x01-Basic_authentication/api/v1/auth/basic_auth.py:38 | decoding the encoding of any byte string gives it back |
| BasicAuth.SplitFirst | 0x01-Basic_authentication/api/v1/auth/basic_auth.py:56 | fails iff the separator is absent; otherwise the first part has no separator and first + separator + rest is the input |
| BasicAuth.SplitFirstOf | 0x01-Basic_authentication/api/v1/auth/basic_auth.py:56 | a text split at its first separator gives back its two parts |
| BasicAuth.ExtractBase64AuthorizationHeader | 0x01-Basic_authentication/api/v1/auth/basic_auth.py:14-25 | a token exactly for a string that starts with the case-sensitive `"Basic "`, and then the header is `"Basic "` + token |
| BasicAuth.ExtractAfterPrefix | 0x01-Basic_authentication/api/v1/auth/basic_auth.py:21-25 | for every `t`, the token of `"Basic " + t` is `t`, even when empty or containing spaces |
| BasicAuth.ExtractRefusesOtherSchemes | 0x01-Basic_authentication/api/v1/auth/basic_auth.py:21-22 | `"Bearer abc"` and `"basic abc"` give `None`; `"Basic abc"` gives `"abc"` |
| BasicAuth.DecodeBase64AuthorizationHeader | 0x01-Basic_authentication/api/v1/auth/basic_auth.py:27-43 | `None` for a non-string; for a string, `None` exactly when Base64 decoding of its UTF-8 bytes fails or the decoded bytes are not valid UTF-8 (the caught exceptions); any result is a string whose UTF-8 bytes are the Base64 decoding of the token's bytes |
| BasicAuth.EncodedTextBytes | 0x01-Basic_authentication/api/v1/auth/basic_auth.py:37 | the UTF-8 bytes of Base64 text are the Base64 symbols themselves |
| BasicAuth.DecodeRoundTrip | 0x01-Basic_authentication/api/v1/auth/basic_auth.py:36-39 | decoding the Base64 text of the UTF-8 bytes of any string yields that string |
| BasicAuth.ExtractUserCredentials | 0x01-Basic_authentication/api/v1/auth/basic_auth.py:45-59 | both parts present iff the input is a string with a `:`; then the email has no `:` and email + `:` + password is the input |
| BasicAuth.CredentialsOfPair | 0x01-Basic_authentication/api/v1/auth/basic_auth.py:56-59 | for every colon-free `email` and any `pwd`, `email:pwd` splits into exactly `(email, pwd)` |
| BasicAuth.CredentialsSplitAtFirstColon | 0x01-Basic_authentication/api/v1/auth/basic_auth.py:56-59 | `"a:b:c"` gives `("a", "b:c")` |
| BasicAuth.CredentialsOfLoneColon | 0x01-Basic_authentication/api/v1/auth/basic_auth.py:56-59 | `":"` gives `("", "")` |
| BasicAuth.CredentialsNeedAColon | 0x01-Basic_authentication/api/v1/auth/basic_auth.py:54-55 | the literal `"no-colon-here"` gives `(None, None)` (the general fact is the first ensures of `ExtractUserCredentials`) |
| BasicAuth.FirstValid | 0x01-Basic_authentication/api/v1/auth/basic_auth.py:75-79 | no index iff no candidate passes the password check; otherwise the index of the first one that does |
| BasicAuth.UserObjectFromCredentials | 0x01-Basic_authentication/api/v1/auth/basic_auth.py:61-79 | `None` for a non-string argument or a failing search; otherwise the first user in search order whose password check succeeds, and `None` when none does |
| BasicAuth.TokenOfBasicHeader | 0x01-Basic_authentication/api/v1/auth/basic_auth.py:85-86 | the token `current_user` passes on is whatever follows `"Basic "` in the request's `Authorization` header |
| BasicAuth.CurrentUser | 0x01-Basic_authentication/api/v1/auth/basic_auth.py:81-91 | `None` without a request; a user only when an `Authorization` header starting with `"Basic "` is present whose remainder decodes to some `email:pwd` with a colon-free email, and then the user is the lookup of exactly that `(email, pwd)`; conversely, whenever the remainder decodes (canonically or after dropped non-alphabet bytes) to such an `email:pwd`, the result is that lookup |
| BasicAuth.CurrentUserRoundTrip | 0x01-Basic_authentication/api/v1/auth/basic_auth.py:81-91 | a request carrying `"Basic " + base64(utf8(email + ":" + pwd))`, for an email without `:`, gets exactly the lookup of `(email, pwd)` |
| BasicAuth.JohnText | 0x01-Basic_authentication/api/v1/auth/basic_auth.py:36-39 | the bytes of `"john:pw123"` encode to `"am9objpwdzEyMw=="` |
| BasicAuth.JohnHeader | 0x01-Basic_authentication/api/v1/auth/basic_auth.py:81-91 | the header for `john` / `pw123` is `"Basic am9objpwdzEyMw=="` |
| BasicAuth.JohnAccepted | 0x01-Basic_authentication/api/v1/auth/basic_auth.py:81-91 | with that header, the user found for `john` whose password is `pw123` is returned |
| BasicAuth.JohnWrongPassword | 0x01-Basic_authentication/api/v1/auth/basic_auth.py:75-79 | with the wrong password the result is `None` |
| FilteredLogger.FindFirst | 0x00-personal_data/filtered_logger.py:22 | no index iff the pattern never occurs; otherwise it occurs there and nowhere before |
| FilteredLogger.MatchValue | 0x00-personal_data/filtered_logger.py:22 | the lazy `.*?` takes the shortest newline-free value that is followed by the separator, and there is no match iff none exists |
| FilteredLogger.FilterDatum | 0x00-personal_data/filtered_logger.py:15-25 | the loop's result is the passes of the fields applied in list order, each to the previous output |
| FilteredLogger.FilteredAppend | 0x00-personal_data/filtered_logger.py:21-25 | filtering with `f1 + f2` is filtering with `f1` and then with `f2` |
| FilteredLogger.NoMatchInAt | 0x00-personal_data/filtered_logger.py:22 | "no match read from the left" holds iff no suffix of the text starts a match |
| FilteredLogger.Substitute | 0x00-personal_data/filtered_logger.py:22-24 | a pass with no match anywhere leaves the text unchanged |
| FilteredLogger.Filtered | 0x00-personal_data/filtered_logger.py:21-25 | with no fields, or none matching, the message is returned unchanged |
| FilteredLogger.NoSeparatorNoChange | 0x00-personal_data/filtered_logger.py:22 | without the separator in the text nothing is redacted |
| FilteredLogger.UnterminatedValueNotMatched | 0x00-personal_data/filtered_logger.py:22 | a `field=` whose value reaches a newline before any separator is not a match |
| FilteredLogger.SubstituteMatchAtStart | 0x00-personal_data/filtered_logger.py:22-24 | `field=value;` becomes `field=***;` (value up to the first separator), and scanning resumes right after it |
| FilteredLogger.SubstituteCopiesPrefix | 0x00-personal_data/filtered_logger.py:22-24 | text at which no match starts is copied verbatim |
| FilteredLogger.SubstituteMaskedPair | 0x00-personal_data/filtered_logger.py:22-24 | in a `key=value;` pair whose key ends in the field, only the value is replaced |
| FilteredLogger.SubstituteKeptPair | 0x00-personal_data/filtered_logger.py:22-24 | a pair whose key does not end in the field is copied |
| FilteredLogger.SubstitutePairs | 0x00-personal_data/filtered_logger.py:22-24 | one pass over a well-formed pair line redacts exactly the values of the keys ending in the field and keeps everything else |
| FilteredLogger.MaskPairs | 0x00-personal_data/filtered_logger.py:22-24 | keys are kept; a value becomes the redaction iff its key ends in the field |
| FilteredLogger.MaskAll | 0x00-personal_data/filtered_logger.py:21-25 | keys are kept; a value becomes the redaction iff its key ends in one of the fields |
| FilteredLogger.FilteredPairs | 0x00-personal_data/filtered_logger.py:21-25 | `filter_datum` on a well-formed pair line equals the line with exactly those values masked |
| FilteredLogger.PiiFieldsRedactLine | 0x00-personal_data/filtered_logger.py:12-25 | with `PII_FIELDS` and `;`, `name=John Smith;email=john@x.com;phone=555;` becomes `name=***;email=***;phone=***;` |
| FilteredLogger.NameRedactsUsername | 0x00-personal_data/filtered_logger.py:22-24 | the field `name` turns `username=bob;` into `username=***;` |
| FilteredLogger.FilteredPairsIdempotent | 0x00-personal_data/filtered_logger.py:21-25 | on a well-formed pair line, filtering the output again changes nothing |
| FilteredLogger.SubstituteKeepsHeader | 0x00-personal_data/filtered_logger.py:43-49 | a pass keeps a prefix with no `=` that ends in a space, for a field without spaces |
| FilteredLogger.FilteredKeepsHeader | 0x00-personal_data/filtered_logger.py:43-49 | the same for the whole field list |
| FilteredLogger.PadRight | 0x00-personal_data/filtered_logger.py:33 | `%-15s`: the text, then spaces up to width 15, never cut |
| FilteredLogger.Header | 0x00-personal_data/filtered_logger.py:33 | the text before the message starts with `"[HOLBERTON] "`, ends with `": "`, and is 16 characters longer than name and level plus a time column of at least 15 |
| FilteredLogger.HeaderShape | 0x00-personal_data/filtered_logger.py:33 | the rendered header ends in a space and has no `=` when the name, level and time have none |
| FilteredLogger.RedactingFormatter.constructor | 0x00-personal_data/filtered_logger.py:36-41 | the formatter keeps the field list it is given |
| FilteredLogger.RedactingFormatter.Format | 0x00-personal_data/filtered_logger.py:43-49 | the record is rendered and filtered with `***` and `;`; for fields without spaces and a header without `=`, the header is kept and only the message is filtered |
| FilteredLogger.PiiFormatterRedactsMessage | 0x00-personal_data/filtered_logger.py:32-49 | a formatter built on `PII_FIELDS` turns the PII pair line into the header + `name=***;email=***;phone=***;` |

## Left out

- Flask request objects. A request is `Option<map<string, string>>`, and header lookup is case-sensitive, unlike Flask's.
- `User.search` and `User.is_valid_password` are the user store and password hashing, which are not part of this model. They are parameters: a search function returning `Fail` (it raised) or `Found(users)`, and a password predicate. An exception raised by `is_valid_password` is not modelled.
- BasicAuth.DecodeBase64AuthorizationHeader: this follows canonical decoding after dropping non-alphabet characters. CPython's non-strict `b64decode` also tolerates some forms with odd padding: it ignores data after a complete padded quantum and extra `=`. The model rejects those forms (`None`), so for them it is stricter than the source.
- Base64.DecodeLast: leftover pad bits in the last symbol are not checked, like CPython. The model therefore does not state that decoding is injective.
- Utf8.Encode: Python strings may hold lone surrogates, on which `encode('utf-8')` raises. Dafny characters cannot be surrogates, so that error path has no counterpart.
- `filter_datum` splices the field names and the separator into the pattern unescaped. The model matches them literally, which agrees with `re.sub` only for names and separators without regular-expression metacharacters. Backslash escapes in the replacement are not processed either.
- FilteredLogger.RedactingFormatter.Format:
  - the logging machinery is not modelled: `getMessage()` with `%` arguments, exception and stack text, and `asctime` computed from the clock;
  - `asctime` is part of the record given as input.
- `get_logger` is not modelled. It mutates the global logger and adds a stream handler, which is I/O.
- `get_db` is not modelled. It needs a MySQL connection and environment variables.
- `main` is not modelled. It iterates a database cursor and logs rows built with `str()` of arbitrary values.
- Whether scrubbing twice changes nothing (idempotence) is not stated in general. `FilteredPairsIdempotent` proves it only for the well-formed pair lines of `FilteredPairs`. For arbitrary text and separators it can fail: a redaction can create a new match.
