# Secure password API: the password generator

A Dafny model of the one request handler of a small HTTP service, the
`POST /generate-password` endpoint. The handler receives a request with a
length and three flags. It rejects lengths outside 4 to 128 with a fixed
message. Otherwise it builds a character pool: the lower case letters, then
the upper case letters, the digits and the ASCII punctuation, each only when
its flag is set. It draws the password from that pool one character at a
time and labels it "High" or "Standard".

The secure random choice is replaced by a stream of draws supplied by the
caller: pool indices, of which the handler consumes exactly one per
password character, `length` in all. The handler then becomes the
deterministic function `PasswordApi.Generate(req, draws)`. The imperative
method `PasswordApi.GeneratePassword` follows the handler statement by
statement and is proved equal to it.

Files:

- `char_classes.dfy`, module `CharClasses`: the four constants of Python's
  `string` module that the handler uses, written out as literals, with lemmas
  giving each one's size, the ASCII range it covers and the absence of
  duplicates.
- `password_api.dfy`, module `PasswordApi`: the request record with its
  defaults, the response, the pool, the sampling, the label, the handler and
  the lemmas about them.

The draws mean that a password depends only on the request and the draws.
Two lemmas then connect draws and passwords one-to-one. Every string of the
right length over the allowed characters comes from some draws
(`EveryPasswordReachable`). Different consumed draws give different passwords,
because the pool lists no character twice (`DrawsDetermined`). So when the
draws are uniform and independent, every possible password is equally
likely.

## Model

| member | source | states |
|---|---|---|
| `CharClasses.LowercaseMembers` | main.py:26 | `string.ascii_lowercase` has 26 distinct characters and holds exactly the characters from `a` to `z` |
| `CharClasses.UppercaseMembers` | main.py:29 | `string.ascii_uppercase` has 26 distinct characters and holds exactly the characters from `A` to `Z` |
| `CharClasses.DigitMembers` | main.py:31 | `string.digits` has 10 distinct characters and holds exactly `0` to `9` |
| `CharClasses.PunctuationMembers` | main.py:33 | `string.punctuation` has 32 distinct characters and holds exactly the printable ASCII characters that are neither a space nor alphanumeric |
| `CharClasses.DistinctConcat` | main.py:28-33 | appending a duplicate-free string that shares no character with a duplicate-free string gives a duplicate-free string |
| `PasswordApi.BuildPool` | main.py:25-33 | the pool built by conditional appends equals the ordered concatenation `Pool(req)`, and a character is in it exactly when its class is lower case or has its flag set |
| `PasswordApi.RequestDefaults` | main.py:9-13 | an omitted field of the request record takes its default: length 12 and all three flags true |
| `PasswordApi.Accepted` | main.py:22 | a length is served exactly when it lies between 4 and 128 inclusive |
| `PasswordApi.Pool` | main.py:26-33 | a character is in the pool exactly when it is a lower case letter, or an upper case letter with `include_uppercase`, or a digit with `include_numbers`, or punctuation with `include_symbols`; the pool has 26 + 26·[uppercase] + 10·[numbers] + 32·[symbols] characters and starts with the whole lower case alphabet, so it is never empty |
| `PasswordApi.PoolDistinct` | main.py:26-33 | no character occurs twice in the pool, whatever the flags |
| `PasswordApi.Sample` | main.py:37 | the password of `count` characters has as its k-th character the pool character at the k-th draw, so it has exactly `count` characters, all from the pool |
| `PasswordApi.Label` | main.py:42 | the label is High exactly when symbols are included and the length exceeds 10, and Standard otherwise |
| `PasswordApi.Generate` | main.py:20-43 | the response is the error with the message "Length must be between 4 and 128 characters." exactly when the length is below 4 or above 128; otherwise the password has exactly the requested length, the `length` field equals it, every character is allowed by the flags, and the label is High exactly when symbols are included and the length exceeds 10 |
| `PasswordApi.GeneratePassword` | main.py:20-43 | the step-by-step handler (reject, build the pool, sample, label) returns the same response as `Generate` |
| `PasswordApi.NoSymbolsNoPunctuation` | main.py:32-33 | with `include_symbols` false, no punctuation character appears in the password |
| `PasswordApi.LowercaseOnly` | main.py:26-37 | with all three flags false, the password holds only lower case letters |
| `PasswordApi.EveryPasswordReachable` | main.py:37 | every string of an accepted length over the allowed characters is produced by some sequence of draws |
| `PasswordApi.DrawsDetermined` | main.py:37 | two streams of draws that produce the same response for an accepted request agree on the `length` draws consumed |
| `PasswordApi.ExtraDrawsIgnored` | main.py:37 | the handler consumes exactly `length` draws: appending further draws to the stream leaves the response unchanged |
| `PasswordApi.DefaultRequestIsHigh` | main.py:10-13 | the default request (length 12, all flags set) is accepted, gives a 12-character password and is labelled High |
| `PasswordApi.ShortRequestRejected` | main.py:22-23 | a request of length 3 is rejected with the length error |
| `PasswordApi.LowercaseEightExample` | main.py:26-37 | a request of length 8 with all flags false gives an 8-character password of lower case letters |

The error response stands for the HTTP 400 that the handler raises through
`HTTPException`; its `detail` is the message. The complexity label is the
datatype `Complexity`, whose `Text` gives the string of the response body.

## Left out

- The random source: `secrets.choice` is a call into the standard library whose output cannot be predicted; the draws are a parameter instead: a stream with at least `length` entries, each consumed entry required to be an index into the pool, from which the handler takes exactly `length`. Uniformity and cryptographic strength are statistical properties and are not stated.
- The FastAPI application, its routing and the `GET /` liveness endpoint (main.py:6, 15-17): framework glue with no logic.
- Request parsing and type checking by pydantic (main.py:9): the request is an already well-typed record, with the defaults of main.py:10-13 as constructor defaults.
- `HTTPException` and the status code (main.py:23): represented by the `Err` response.
- JSON serialisation of the response (main.py:39-43): the response is a datatype with the same three fields.
