# uparse: percent-escaping and scheme extraction, verified in Dafny

uparse is a small C library for taking URLs apart. This version of its code
contains two pieces of real logic, and this project models both:

- **`url_escape`.** This is the percent-escape encoder. It makes one left-to-right pass over a C
  string and writes into a zero-filled buffer of `3 * strlen(s) + 1`
  characters. Each of the 19 characters in `ESCAPE_CHARS` is replaced by the
  triple at the same index of `PERCENT_REPLACE`. Every other character is
  copied unchanged.
- **`get_scheme`, `init_url_t` and `parse_url`.** These are the scheme extractor, the `url_t`
  initialiser and the parse driver. `get_scheme` accepts 1 to 16 ASCII
  letters, then `:`, then one or more `/`. It moves the caller's cursor past
  the last slash, and it stops at the first byte that breaks that shape. `parse_url`
  allocates a `url_t`, initialises it, runs the scheme stage only and stores
  the scheme.

Modelling conventions:

- A C string is a `string` (`seq<char>`) holding the characters before the
  terminator (`Uparse.IsCString`). Reaching `*c == '\0'` means reaching the
  end of the sequence.
- Each `char` of the model stands for one C byte. So `strlen(s)` is `|s|`,
  and the escape buffer of `3 * strlen(s) + 1` bytes has `3*|s|+1`
  characters. The percent-encoding reference (`PercentEncoded`,
  `UnescapeEncoded`) uses only characters below 256, which are octets.
- The cursor `char **s` is an index into the working copy. `GetScheme`
  takes its value on entry and returns the value that `*s` holds afterwards.
- `get_scheme` only returns NULL. Which check failed shows up only in the message it prints to stderr.
  The model returns that reason as a `SchemeError` inside a `Result`, so the
  order in which the checks run can be stated.
- `url_t` is the class `UrlParse.Url`. Its fields are set one by one, and a NULL
  `char *` is `None`. `new Url` stands for `malloc`, so the fields are
  unspecified until `Init` (`init_url_t`) runs.
- `isalpha` is fixed to the C locale: the 52 ASCII letters.
- Each method is proved against a specification function: `Escape` for
  `url_escape` and `SchemeSpec` for `get_scheme`. The lemmas then relate those
  functions to independent descriptions: the length and identity
  properties, a grammar for the accepted schemes, and percent-encoding and
  decoding as section 2.1 of RFC 3986 defines them.

Two behaviours of the code are modelled as written:

- **The error out-parameter.** `parse_url` sets `*url_err_out` to
  `NO_UPARSE_ERROR`. It then passes the same pointer to `get_scheme`, which
  sets it to `UPARSE_ERROR` on entry and never resets it. So `parse_url` reports
  `UPARSE_ERROR` whether or not it returns a record (`UrlParse.ParseUrl`).
- **The escape table.** Its last two entries are crossed. The Findings section
  below gives the details.

The code only has the scheme stage. Host, port, path, query and fragment
extraction do not exist in it: uparse.c:180-205 holds only section banners.
The model follows the code and has no such stages.

Files:

- `wrappers.dfy`: `Option` and `Result`.
- `uparse.dfy`: the error codes, C strings and `isalpha`.
- `escape.dfy`: `url_escape` and its properties.
- `scheme.dfy`: `get_scheme` and the grammar it accepts.
- `urlparse.dfy`: `url_t`, `init_url_t` and `parse_url`.

## Model

| member | source | states |
|---|---|---|
| `PercentEscape.IndexOf` | uparse.c:44-54 | The table scan for `c` stops at an index whose `ESCAPE_CHARS` entry is `c`, and no earlier entry is `c`. It runs to 19 exactly when `c` is not in the table. |
| `PercentEscape.IsReserved` | uparse.c:16-18 | Defines "reserved" as membership in `ESCAPE_CHARS`. The contract states that a character is reserved exactly when one of the 19 entries equals it. |
| `PercentEscape.EscapeCharWith` | uparse.c:44-58 | Defines the piece one input character becomes under a table: its triple when reserved, itself otherwise. The contract states that the piece has 3 characters for a reserved character and 1 otherwise. |
| `PercentEscape.EscapeWith` | uparse.c:42-60 | Defines the encoder's output under a table: the pieces of the input characters, in input order. The lemmas below state its properties. |
| `PercentEscape.EscapeBounds` | uparse.c:29-30 | Under any table, the output is at least as long as the input and at most three times as long. |
| `PercentEscape.Escape` | uparse.c:27-64 | Defines what `url_escape` computes, with the table as written. The contract states the same length bounds, so the output fits the `3*strlen(s)+1` buffer. |
| `PercentEscape.EscapeCorrected` | uparse.c:16-21 | Defines the encoder with the two bracket entries of `PERCENT_REPLACE` in the intended order. The contract states the same length bounds. |
| `PercentEscape.TableIndexOf` | uparse.c:16-18 | Each reserved character is found at its own index, so `ESCAPE_CHARS` has no repeated entry. |
| `PercentEscape.TablesAreTriples` | uparse.c:19-21 | Every `PERCENT_REPLACE` entry, and every entry of the corrected table, is `%` followed by two hexadecimal digits. |
| `PercentEscape.UrlEscape` | uparse.c:27-64 | The buffer is newly allocated, so the caller owns it. It has `3*|s|+1` characters. Its first `len` characters are `Escape(s)` and hold no NUL. Every character from `len` onwards is NUL. `len = |s| + 2·(number of reserved characters)`, so the running index never leaves the buffer. |
| `PercentEscape.EscapeOne` | uparse.c:43-58 | One turn of the outer loop. The piece of one input character is written at the running index, which moves past it. The piece is the `PERCENT_REPLACE` triple for a reserved character and the character itself otherwise. Nothing before the index or after the piece changes. |
| `PercentEscape.FindEscape` | uparse.c:44-54 | The table scan returns the index at which it breaks, which is `IndexOf(c)`: 19 when `c` is not in `ESCAPE_CHARS`. |
| `PercentEscape.CopyTriple` | uparse.c:47-50 | The three characters of a replacement triple are written, in order, at `j`, `j+1` and `j+2`. The index ends at `j+3`, and nothing else in the buffer changes. |
| `PercentEscape.EscapeCons` | uparse.c:42-60 | The output is the piece of the first character followed by the escaping of the rest. |
| `PercentEscape.EscapeAppend` | uparse.c:42-60 | Escaping distributes over concatenation. The output is the pieces of the input characters, in input order. |
| `PercentEscape.EscapeOfReserved` | uparse.c:44-53 | A reserved character on its own escapes to exactly its `PERCENT_REPLACE` triple. |
| `PercentEscape.EscapeLength` | uparse.c:30 | The output length is the input length plus 2 per reserved character. That is at most `3*|s|`, so the output and its NUL fit the `3*|s|+1` buffer. |
| `PercentEscape.CountReservedZero` | uparse.c:16-18 | The reserved count is 0 exactly when no character of the string is in `ESCAPE_CHARS`. |
| `PercentEscape.EscapeIdentity` | uparse.c:55-58 | A string with no reserved character is copied unchanged. |
| `PercentEscape.EscapeIdentityIff` | uparse.c:42-60 | Escaping leaves a string unchanged if and only if the string has no reserved character. |
| `PercentEscape.EscapeOutputChars` | uparse.c:42-60 | Every output character is `%`, a hexadecimal digit, or an unreserved character of the input. |
| `PercentEscape.EscapeOutputReserved` | uparse.c:42-60 | The only reserved character the output can hold is `%`. A C string escapes to a C string. |
| `PercentEscape.EscapeNotIdempotent` | uparse.c:16-21 | Escaping is not idempotent: `"%"` becomes `"%25"`, and escaping that again gives `"%2525"`. |
| `PercentEscape.EscapeExampleHello` | test.c:60 | `"hello!##there"` escapes to `"hello%21%23%23there"`. |
| `PercentEscape.EscapeExampleBangs` | test.c:61 | `"!!!##"` escapes to `"%21%21%21%23%23"`. |
| `PercentEscape.AsWrittenSwapsBrackets` | uparse.c:16-21 | With the table as written, `]` escapes to `"%5B"` and `[` escapes to `"%5D"`. These are each other's percent-encodings, so decoding the output swaps the two brackets. |
| `PercentEscape.CorrectedTableIsPercentEncoding` | uparse.c:19-21 | Every entry of the corrected table is the RFC 3986 percent-encoding (`%` and two upper-case hexadecimal digits) of its character. |
| `PercentEscape.CorrectedRoundTrip` | uparse.c:27-64 | With the corrected table, percent-decoding the escaped string gives back the input, for every string. |
| `PercentEscape.PieceAgreesIff` | uparse.c:16-21 | The two tables give a character the same piece exactly when it is not `[` or `]`. |
| `PercentEscape.EscapeAgreesIff` | uparse.c:16-21 | The encoder as written and the corrected encoder agree on a string exactly when it holds no `[` and no `]`, so the two bracket entries are the whole discrepancy. |
| `PercentEscape.UnescapeEncoded` | uparse.c:19-21 | Decoding a percent-encoded character followed by any text gives the character, followed by the decoding of that text. |
| `Uparse.IsAlpha` | uparse.c:133 | Defines `isalpha` in the "C" locale: the 52 ASCII letters. The contract states that a letter is never NUL, `:` or `/`, so the letter loop cannot pass the terminator, the delimiter or a slash. |
| `Scheme.SchemeSpec` | uparse.c:127-177 | Defines what `get_scheme` decides for the text at the cursor, testing each character for `:`, then for being a letter, then against the length limit. The contract states that an accepted scheme is 1 to 16 letters and a prefix of the text, and that the count consumed covers the scheme, the `:` and at least one slash, within the text. |
| `Scheme.LetterRun` | uparse.c:127-144 | The length of the leading run of letters: every character before it is a letter, and the character at it (if any) is not. The first loop stops there when the run is at most 16 letters long. |
| `Scheme.SlashRun` | uparse.c:159-166 | The slash loop's stopping point. Every character before it is `/`, and the character at it (if any) is not. |
| `Scheme.GetScheme` | uparse.c:105-178 | The error out-parameter is `UPARSE_ERROR` on every path. On success the result is the scheme given by `SchemeSpec`, and the cursor moves strictly forward to the end of the slashes. On failure the reason is the one `SchemeSpec` gives, and the cursor is unchanged. |
| `Scheme.SchemeSpecStops` | uparse.c:127-155 | At most 16 letters followed by the end of the string is `NoDelimiter`. Followed by a character that is not `:`, it is `InvalidChar` of that character. `:` with no letter before it is `NoScheme`. |
| `Scheme.SchemeSpecTooLong` | uparse.c:136-138 | 17 letters in a row fail with `TooLong`. |
| `Scheme.SchemeSpecAfterPrefix` | uparse.c:157-177 | After the letters and the `:`, no `/` gives `NoSlash`. Otherwise the result is the letters, and the count consumed runs to the end of the slashes. |
| `Scheme.LetterRunIs` | uparse.c:127-144 | Letters before `j` and a non-letter (or the end) at `j` mean the letter run is exactly `j`. |
| `Scheme.LetterRunExceeds` | uparse.c:136-138 | Letters at positions `0..j` mean the letter run is longer than `j`. |
| `Scheme.SlashRunIs` | uparse.c:159-166 | Slashes before `j` and a non-slash (or the end) at `j` mean the slash run is exactly `j`. |
| `Scheme.LetterRunOfLetters` | uparse.c:127-144 | A string that starts with letters has a letter run at least that long. The run is exactly that long when a non-letter follows. |
| `Scheme.SlashRunOfSlashes` | uparse.c:159-166 | `k` slashes followed by text that does not start with `/` have a slash run of exactly `k`. |
| `Scheme.SchemeAccepts` | uparse.c:127-177 | Completeness. 1 to 16 letters, then `:`, then `k ≥ 1` slashes, then anything not starting with `/`, is accepted with exactly those letters. The cursor advances by letters + 1 + `k`. |
| `Scheme.SchemeSound` | uparse.c:127-177 | Soundness. Every accepted prefix is 1 to 16 letters, `:` and one or more slashes, and no `/` follows it. Anything else is refused. |
| `Scheme.SchemeTooLong` | uparse.c:136-138 | A string that starts with 17 letters fails with `TooLong`, whatever follows. |
| `Scheme.SchemeLongInvalid` | uparse.c:128-135 | 16 letters, then a non-letter that is not `:`, fail as `InvalidChar`, not as an overflow: `:` is checked first, then letters, then length. |
| `Scheme.SchemeNeedsSlash` | uparse.c:157-171 | A valid scheme and `:` without a following `/` fail with `NoSlash`. |
| `Scheme.SchemeNeedsDelimiter` | uparse.c:146-149 | At most 16 letters and then the end of the string fail with `NoDelimiter`. |
| `Scheme.SchemeExamplesAccepted` | test.c:28-34 | `"http://foo.com"` gives `http`, with the cursor at 7. `"sftp:/|"` gives `sftp`, with the cursor at 6. |
| `Scheme.SchemeExamplesRefused` | test.c:33-44 | `"http//"` fails with `InvalidChar('/')`. `"://my.domain"` fails with `NoScheme`. `" http://foo.com"` fails with `InvalidChar(' ')`. |
| `UrlParse.Url.IsInitial` | uparse.c:76-83 | Defines the state `init_url_t` leaves: every string field NULL and the port 0. |
| `UrlParse.Url.Init` | uparse.c:76-83 | Afterwards every string field is NULL and the port is 0. |
| `UrlParse.ParseUrl` | uparse.c:210-237 | The result is null exactly when `get_scheme` refuses the string. Otherwise it is a fresh record holding that scheme, with every other field NULL and the port 0. The error out-parameter is `UPARSE_ERROR` in both cases. |

## Left out

- Allocation failure: `calloc` in `url_escape`, and `malloc` and `strdup` in `parse_url` and `get_scheme`, are taken to succeed. So the NULL-input guard of `get_scheme` (uparse.c:109-112) cannot be reached and is not modelled.
- `free_url_t` (uparse.c:85-97) and the `free` calls in `parse_url` only release memory. A record that `parse_url` discards becomes `null`.
- Console output (`fprintf(stderr, …)`, `printf("have scheme…")`) is left out. The stderr messages of `get_scheme` appear only as the `SchemeError` reason.
- `size_t` arithmetic: `3 * strlen(s) + 1` and the running index are unbounded integers, so wrap-around on gigantic inputs is not modelled.
- `isalpha` is fixed to ASCII letters and does not depend on the locale. In C, calling `isalpha` on a negative `char` (a byte above 127 where `char` is signed) is undefined behaviour. The model treats every non-letter character alike, so such a byte gives `InvalidChar`.
- Host, port, path, query and fragment extraction are not part of this model, because the code has only their banners (uparse.c:180-205). `get_query_arg_list` and `free_arg_list_t` (called at test.c:83 and test.c:96) are not defined in any file here. `print_url` is only declared (uparse.h:31). None of them is modelled.
- test.c and speed_test.c are drivers. Their input strings appear only as example lemmas.

## Findings

| source | as written | input that shows it | evidently intended | confidence | as-written member | corrected member |
|---|---|---|---|---|---|---|
| uparse.c:16-21 | `ESCAPE_CHARS[17]` is `]` and maps to `"%5B"`; `ESCAPE_CHARS[18]` is `[` and maps to `"%5D"` | `url_escape("[")` is `"%5D"`, which percent-decodes to `"]"` | `]` maps to `"%5D"` and `[` maps to `"%5B"`, their percent-encodings under section 2.1 of RFC 3986 | high; not executed | `PercentEscape.AsWrittenSwapsBrackets` | `PercentEscape.CorrectedRoundTrip` |

`UrlEscape` and `Escape` keep the table as written, because they model what the code computes.
`EscapeCorrected` uses the corrected table. `CorrectedTableIsPercentEncoding` and
`CorrectedRoundTrip` prove the intended property for it. `EscapeAgreesIff`
shows that the two encoders differ only on strings that hold a bracket. The general lemmas
(`EscapeAppend`, `EscapeLength`, `EscapeIdentityIff`, `EscapeOutputChars`) are
stated for any table, so they hold for both.
