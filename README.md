# Pwned Passwords range endpoint: a Dafny model

This project models the core of a small web service. The service serves
Pwned Passwords hash ranges by the k-anonymity scheme. A client sends the
first five hexadecimal digits of a SHA-1 hash to `GET /range/{hash}`. The
service first checks the prefix (`is_valid_hash`) and upper-cases it. It
then fetches the object stored under that key. The object's text is
stripped and split into lines. Synthetic lines (`generate_padding`) are
appended so that the size of the response does not reveal how many real
lines the range holds. The padded lines are joined back into one text.

The model is split into four modules:

- `Text` (`text.dfy`) holds the string operations the handler uses, on
  ASCII:
  - `bytes.decode("ascii")`, `str.strip()`, `str.split("\n")`,
    `"\n".join(...)` and `str.upper()`;
  - round-trip and characterisation lemmas for each of them.
- `Prefix` (`prefix.dfy`) holds `is_valid_hash` and the meaning of the
  upper-cased key. A valid prefix is read as a number below 16^5, and its
  key is the canonical five-digit upper-case rendering of that number.
- `Padding` (`padding.dfy`) holds `generate_padding` and the padding-count
  policy. It proves that for up to 800 real lines, every possible
  response size is possible whatever the real count.
- `RangeLookup` (`range_lookup.dfy`) holds `get_range`:
  - a specification function `RangeReply`;
  - the imperative method `GetRange`, which follows the handler's steps
    and is proved to give `RangeReply`'s reply;
  - the lemmas stating what a padded response looks like.

Some inputs the handler takes from the outside become parameters:

- **Store.** The S3 store is a function from key to `StoreResult`: the
  object's bytes, `NoSuchKey`, or any other store error (by its code), which
  the handler does not catch.
- **`random.randint`.** It is a function `randint(lo, hi)` that is only
  known to give a value in `[lo, hi]`.
- **`random.choice`.** It is a function `choice(i, j)` that gives, for
  synthetic line `i` and character `j`, an index into the alphabet.
- **HTTP result.** The handler's result is a `Reply`. It holds the
  outcome (a plain-text body, an HTTP error status, or an error the
  handler does not catch), the store keys looked up and the number of
  warnings logged.

The model follows the code of `main.py` where a description of the
service differs from it:

- **Lines are opaque.** The code never parses the `SUFFIX:COUNT` form of
  the stored lines. It strips the object text and splits it on `"\n"`,
  and the model does the same.
- **Empty objects.** An empty or all-white-space object yields one empty
  real line, not zero lines (`BlankBodyIsOneLine`). It is then padded as
  one real line.
- **Alphabet order.** The synthetic-line alphabet is the code's
  `"ABCDEF1234567890"`. It is the same set of characters as the
  upper-case hexadecimal digits (`AlphabetIsUpperHex`).

## Model

| member | source | states |
|---|---|---|
| Prefix.ValidHashIff | main.py:53-54 | is_valid_hash accepts a string exactly when it has five characters and every character is a hexadecimal digit of either case; other lengths, the empty string included, are refused |
| Prefix.HexDigitsAreHexChars | main.py:53-54 | a character is in string.hexdigits exactly when it is 0-9, a-f or A-F |
| Prefix.KeyIsCanonical | main.py:79 | the upper-cased form of a valid prefix is itself valid and is the five-digit upper-case rendering of the number the prefix denotes |
| Prefix.SameKeyIff | main.py:79 | two valid prefixes are upper-cased to the same key exactly when they denote the same number |
| Prefix.EveryNumberHasAKey | main.py:53-54 | each of the 16^5 numbers has a valid rendering that reads back as that number |
| Prefix.ValueFormat | main.py:79 | rendering a number below 16^k in k digits and reading it back gives the number |
| Prefix.FormatValue | main.py:79 | reading a hexadecimal string and rendering it in as many digits gives its upper-case form |
| Text.ToUpper | main.py:79 | upper-casing keeps the length, leaves no lower-case letter, gives only characters that upper-casing again leaves alone, and changes no character other than a lower-case letter |
| Text.ToUpperIdempotent | main.py:79 | upper-casing twice is upper-casing once |
| Prefix.ToUpperKeepsHex | main.py:79 | upper-casing a hexadecimal string keeps it hexadecimal and keeps the number it denotes |
| Text.DecodeAscii | main.py:91 | decoding succeeds exactly when every byte is below 128, and a successful decode is ASCII text that encodes back to exactly the bytes it was decoded from |
| Text.DecodeEncode | main.py:91 | decoding the encoding of ASCII text gives the text back |
| Text.EncodeDecode | main.py:91 | encoding decoded bytes gives the bytes back |
| Text.Strip | main.py:91 | strip gives a string no longer than its input, with no white space at either end, and empty exactly when the input is all white space |
| Text.StripExact | main.py:91 | strip removes exactly the leading and trailing white space: stripping lead + core + trail, with white-space lead and trail and a core without white space at its ends, gives the core |
| Text.StripIdempotent | main.py:91 | stripping twice is stripping once |
| Text.StripUntrimmed | main.py:91 | a string without white space at either end is left unchanged by strip |
| Text.Split | main.py:91 | split gives at least one piece and no piece contains the separator |
| Text.SplitCount | main.py:91 | split gives one more piece than there are separators in the string |
| Text.JoinSplit | main.py:108 | joining the pieces of a split with the same separator gives the string back |
| Text.SplitJoin | main.py:106-108 | splitting the join of a non-empty list of separator-free lines gives the list back |
| Text.JoinAppend | main.py:106-108 | joining two non-empty lists appended is joining each and putting one separator between |
| Padding.PaddingLine | main.py:50 | every synthetic line has 35 characters from the alphabet followed by ":0" |
| Padding.GeneratePadding | main.py:48-50 | generate_padding(count) gives exactly count lines, each a synthetic line |
| Padding.GeneratePaddingCoversAll | main.py:48-50 | every list of synthetic lines is one that generate_padding can give: the choices read back from the lines regenerate them |
| Padding.AlphabetIsUpperHex | main.py:49 | the alphabet is exactly the sixteen upper-case hexadecimal digits |
| Padding.SyntheticLineShape | main.py:49-50 | a synthetic line's suffix is upper-case hexadecimal and the line holds no line break |
| Padding.PaddingBounds | main.py:94-104 | the randint bounds are (800 - n, 1000 - n) for at most 800 real lines and (0, 200) above, and the lower bound is never above the upper |
| Padding.PossibleTotalsUpToMinimum | main.py:94-97 | for at most 800 real lines the possible response sizes are exactly 800 to 1000 lines |
| Padding.PossibleTotalsAboveMinimum | main.py:98-104 | for more than 800 real lines the possible response sizes are exactly n to n + 200 lines |
| Padding.SizeHidesCountUpToMinimum | main.py:94-97 | any two real counts of at most 800 can give exactly the same response sizes |
| RangeLookup.BodyLines | main.py:91 | the real lines are at least one, hold no line break and join back to the stripped text |
| RangeLookup.BlankBodyIsOneLine | main.py:91 | an empty or all-white-space object gives the one empty line |
| RangeLookup.PaddingFor | main.py:94-104 | the padding drawn for n real lines has a count within the policy's bounds and consists of synthetic lines |
| RangeLookup.RangeReply | main.py:74-110 | an invalid prefix gives 400 without a store lookup; a valid one is looked up once under its upper-case form; NoSuchKey gives 404; another store error is not caught; a body is given exactly when the object is found and is ASCII; only a body logs a warning |
| RangeLookup.ObjectReply | main.py:91-110 | a found object gives a body exactly when it decodes as ASCII, and otherwise an uncaught decode error without a warning |
| RangeLookup.PaddingIsPolicy | main.py:94-106 | appending policy padding to the real lines gives a line list that obeys the size policy and keeps the real lines first |
| RangeLookup.JoinPadded | main.py:106-108 | splitting the joined response gives the real lines followed by the padding, and the response text starts with the joined real lines |
| RangeLookup.PaddedBody | main.py:91-108 | the padded text of an object obeys the padded-response contract |
| RangeLookup.PaddedResponse | main.py:91-108 | a body is given only for a valid prefix whose object was found and decoded. Its lines are the object's real lines in order, then synthetic lines only. There are 800 to 1000 lines when the real count is at most 800, and at most n + 200 above that. One warning is logged exactly above 800. The text starts with the stripped object |
| RangeLookup.CaseInsensitive | main.py:76-82 | a valid prefix and its upper-case form get the same reply |
| RangeLookup.SameNumberSameReply | main.py:76-82 | two valid prefixes that denote the same number get the same reply |
| RangeLookup.GetRange | main.py:74-110 | the handler's steps give RangeReply's reply: 400 exactly for an invalid prefix, with no lookup; one lookup under the upper-case key otherwise; any body is a padded response for the object's text |
| RangeLookup.ServeObject | main.py:91-108 | decoding, stripping, splitting, padding by the policy's draw and joining a found object gives ObjectReply's reply, with the warning logged above 800 real lines |

## Left out

- Configuration is not modelled: the `Settings` record and the TOML file named by `PWNED_PASSWORDS_CONFIG` (main.py:15-19, 57-60). The bucket name and the credentials only reach the store, and the store is a parameter here.
- `S3Helper`, its `ping` and the start-up refusal when the store is unreachable (main.py:22-45, 62-69) are not modelled. They are I/O against boto3; `get_object` becomes the `store` function.
- `GET /health` (main.py:113-115) is not modelled. It only reports `ping`.
- The web framework is not modelled. `HTTPException`, `PlainTextResponse` and the server error for an uncaught exception become the `Outcome` datatype.
- The distribution of the random draws is not modelled, only their ranges. Uniformity of `random.randint` and `random.choice` is not modelled, so nothing is proved about how likely a size or a suffix is.
- The warning's message text and the logger are not modelled. Only the number of warnings is counted.
- RangeLookup.GetRange: errors raised while reading the object body over the network are not modelled. The body is the byte sequence the store gives.
- Text.ToUpper: upper-cases ASCII letters only, not all of Unicode. It is only applied to a prefix that passed validation, which is ASCII.
- Text.Strip: strips Python's ASCII white space (codes 9-13, 28-32). The text has passed ASCII decoding, so no other white space can occur.
- Padding.GeneratePadding: gives a list rather than a lazy generator. The generator is consumed at once by `list.extend`, so the result is the same.
