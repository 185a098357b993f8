# rustyca: a verified model of the balance extraction

rustyca logs in to the lycamobile.es customer portal, fetches the account page and
prints three values read from it:

- the money balance;
- the internet (data) balance;
- the plan's expiration date.

This project models the part of `src/main.rs` that turns the page into those three
strings, and proves what each step yields:

- `get_element_from` collects the text of the elements a CSS selector matches;
- `get_money_balance` takes the first line of that text;
- `get_internet_balance` drops its first two bytes;
- `get_expiration_date` takes the piece after the first `"hasta"` ("until") and trims
  its leading whitespace.

Files:

- `utf8.dfy` (module `Utf8`): the UTF-8 byte view of a Rust `str`. Text is modelled as
  `string`, a sequence of Unicode scalar values, which is what a valid UTF-8 `str`
  encodes. `Encode` gives its bytes, and `IsCharBoundary` is `str::is_char_boundary`
  on those bytes.
- `str_ops.dfy` (module `StrOps`): the standard-library operations that the code
  chains, each as a function:
  - `char::is_whitespace`, the Unicode White_Space set written out;
  - `str::trim_start`;
  - `str::split` with a string pattern, and the search it runs from its cursor;
  - `str::lines`;
  - `str::get(n..)`;
  - `collect::<String>()`.
- `rustyca.dfy` (module `Rustyca`): the four functions of `src/main.rs`.
  - The parsed page is `Html`. It gives, for each selector, the matched elements in
    document order.
  - An element is the sequence of its text nodes.
  - A failing `expect` is `Panic(message)`, with the message the source passes to
    `expect`.
- `example_page.dfy` (module `ExamplePage`): the page fragments quoted in the comments of
  `src/main.rs`, and proofs of the three values extracted from them.

A value that cannot be extracted is not replaced by a placeholder: the code panics
through `expect` (src/main.rs:80, 88, 95), and the model returns `Panic` and no value.

## Model

| member | source | states |
|---|---|---|
| `Utf8.Encode` | src/main.rs:95 | The bytes `get` indexes: at least one byte per character, the first never a continuation byte. |
| `Utf8.EncodeAsciiLength` | src/main.rs:95 | A text has exactly one byte per character iff every character is ASCII. |
| `Utf8.IsCharBoundary` | src/main.rs:95 | `str::is_char_boundary`: offset 0 and the byte length are boundaries, any offset past the end is not, and an inner offset is one iff its byte is not a continuation byte. `BoundaryAtCharPosition` characterises it: an offset is a boundary iff it is the byte offset of some character position. |
| `Utf8.EncodeChar` | src/main.rs:95 | A character encodes to 1 to 4 bytes. Its first byte is never a continuation byte and all later bytes are. It is one byte exactly for ASCII. |
| `Utf8.EncodeAppend` | src/main.rs:95 | The bytes of a concatenation are the concatenation of the bytes. |
| `StrOps.IsWhitespace` | src/main.rs:81 | `char::is_whitespace`, the test `trim_start` applies: on ASCII it holds exactly for space and `'\t'` to `'\r'`; no digit or letter is whitespace; no whitespace character lies above U+3000. |
| `StrOps.TrimStart` | src/main.rs:81 | The result is a suffix of the input. Every character dropped is whitespace. The result is empty or starts with a non-whitespace character. |
| `StrOps.FindFrom` | src/main.rs:80 | A found occurrence starts at or after the search start and lies within the text. |
| `StrOps.FindFromSpec` | src/main.rs:80 | The search skips nothing. No occurrence starts between the search start and the one found. When nothing is found, no occurrence starts anywhere from the search start on. |
| `StrOps.FindFromFirst` | src/main.rs:80 | The leftmost occurrence after the search start is what the search returns. |
| `StrOps.OccursInSlice` | src/main.rs:80 | An occurrence inside a slice of the text is an occurrence in the text, ending within the slice. |
| `StrOps.SliceWithout` | src/main.rs:80 | A slice in which no occurrence starts does not contain the pattern. |
| `StrOps.SplitFrom` | src/main.rs:80 | Splitting from a cursor always gives at least one piece. |
| `StrOps.Split` | src/main.rs:80 | A split always has at least one piece. |
| `StrOps.SplitOnePiece` | src/main.rs:80 | The split has exactly one piece iff the pattern does not occur. So `nth(1)` exists iff the pattern occurs. |
| `StrOps.SplitFromJoin` | src/main.rs:80 | Joining the pieces from a cursor with the pattern gives back the text from that cursor on. |
| `StrOps.SplitJoin` | src/main.rs:80 | Joining the pieces with the pattern gives back the original text. |
| `StrOps.SplitFromPatternFree` | src/main.rs:80 | No piece produced from a cursor contains the pattern. |
| `StrOps.SplitPiecesPatternFree` | src/main.rs:80 | No piece of a split contains the pattern. |
| `StrOps.SecondPieceToNext` | src/main.rs:80 | Let `k` be the first occurrence after the one at `i`. The second piece is exactly the text between the end of the occurrence at `i` and `k`. |
| `StrOps.SecondPieceToEnd` | src/main.rs:80 | With no occurrence after the first, the second piece is all the text after the first occurrence. |
| `StrOps.LineEnd` | src/main.rs:87-88 | Returns the index of the first `'\n'`, or the length when there is none. No `'\n'` comes before it. |
| `StrOps.Lines` | src/main.rs:87-88 | `lines()` yields no line exactly when the text is empty. |
| `StrOps.StripCr` | src/main.rs:87 | The `'\r'` removal of `lines()`: the result is a prefix of the line, one character shorter exactly when the line ends in `'\r'`, and the line itself otherwise. |
| `StrOps.LinesHaveNoNewline` | src/main.rs:87-88 | No line yielded by `lines()` contains `'\n'`. |
| `StrOps.SliceFrom` | src/main.rs:95 | `get(n..)`: offset 0 gives the whole text, an offset past the byte length gives `None`, and a result is a suffix of the text. `SliceFromBytes` gives its full contract. |
| `StrOps.SliceFromBytes` | src/main.rs:95 | `get(n..)` succeeds iff byte offset `n` is a char boundary of the UTF-8 bytes, which excludes any offset past the end. On success the result is a suffix of the text. Its bytes are the input's bytes from offset `n` on. |
| `StrOps.BoundaryAtCharPosition` | src/main.rs:95 | A byte offset is a char boundary iff it is the byte length of some prefix of the text, so `get(n..)` succeeds exactly at character positions. |
| `StrOps.SliceAtCharPosition` | src/main.rs:95 | `get` at the byte offset of character position `k` succeeds and gives the text from character `k` on. |
| `StrOps.Concat` | src/main.rs:104 | `collect::<String>()`: a single piece is collected to itself, and every piece is at most as long as the result. `ConcatAppend` gives how it distributes over appending. |
| `StrOps.ConcatAppend` | src/main.rs:103-104 | Collecting two runs of pieces gives the two collected strings one after the other. |
| `Rustyca.TextNodes` | src/main.rs:103 | `flat_map` over each `el.text()`: one element gives its own text nodes, and there are no nodes at all iff no element has any. `TextNodesConcat` relates the flattened nodes to each element's text. |
| `Rustyca.GetElementFrom` | src/main.rs:99-105 | A selector that matches no element gives the empty string, not a failure. |
| `Rustyca.TextNodesConcat` | src/main.rs:101-104 | Collecting the flattened text nodes equals concatenating each element's own text, element by element. |
| `Rustyca.GetElementFromInOrder` | src/main.rs:99-105 | The extracted text is the matched elements' texts in document order. |
| `Rustyca.ElementsTextAppend` | src/main.rs:101-104 | Elements matched earlier contribute their text before those matched later. |
| `Rustyca.ExpirationDate` | src/main.rs:79-81 | It panics with the `expect` message iff the text has no `"hasta"`. On success the date does not start with whitespace and contains no `"hasta"`. |
| `Rustyca.ExpirationDateToNext` | src/main.rs:80-81 | With a second `"hasta"` at `k`, the date is the text strictly between the first `"hasta"` and `k`, with leading whitespace trimmed. |
| `Rustyca.ExpirationDateToEnd` | src/main.rs:80-81 | With a single `"hasta"`, the date is the rest of the text after it, with leading whitespace trimmed. |
| `Rustyca.GetExpirationDate` | src/main.rs:77-82 | A page where `p.bdl-balance > span` matches nothing makes it panic. |
| `Rustyca.MoneyBalance` | src/main.rs:86-89 | It panics with the `expect` message iff the text is empty. Otherwise the result is a prefix of the text without `'\n'`. |
| `Rustyca.MoneyBalanceWhole` | src/main.rs:87-89 | A non-empty text without `'\n'` is returned whole. |
| `Rustyca.MoneyBalanceBreak` | src/main.rs:87-89 | Let `e` be the index of the first `'\n'`. The result is the text before `e`, less one `'\r'` directly before it. A text starting with `'\n'` gives `""`. |
| `Rustyca.GetMoneyBalance` | src/main.rs:84-90 | A page where `span.myaccount-lowbalance` matches nothing makes it panic. |
| `Rustyca.InternetBalance` | src/main.rs:94-96 | It succeeds iff the text has at least 2 UTF-8 bytes and byte 2, if present, is not a continuation byte. Otherwise it panics with the `expect` message. On success the result's bytes are the input's without the first two, so it is 2 bytes shorter, and it is a suffix of the input. |
| `Rustyca.InternetBalanceAscii` | src/main.rs:93-96 | When the first two characters are ASCII, the result is the text after them. |
| `Rustyca.GetInternetBalance` | src/main.rs:92-97 | A page where `div.bdl-mins` matches nothing makes it panic. |
| `ExamplePage.ExpirationText` | src/main.rs:78-79 | The two spans' texts are joined with no space; the space between them belongs to the paragraph. |
| `ExamplePage.LoneHasta` | src/main.rs:80-81 | With a single `"hasta"` and no `'h'` around it, the date is the trimmed text after it. |
| `ExamplePage.ExampleExpirationDate` | src/main.rs:78-81 | On the quoted balance paragraph the expiration date is `07-05-2021`. |
| `ExamplePage.ExampleMoneyBalance` | src/main.rs:85-89 | On `€0.03\n` the money balance is `€0.03`. |
| `ExamplePage.ExampleInternetBalance` | src/main.rs:93-96 | On `\n\n5.66GB` the internet balance is `5.66GB`. |

## Left out

- `main` (src/main.rs:8-48): the banner, printing the three values and `exit(1)` are
  process I/O. In particular, the model does not capture that the first panicking metric
  ends the whole run before any of the three values is printed (src/main.rs:47); the
  banner (src/main.rs:17) has already been printed.
- `get_yaml_content` (src/main.rs:58-64): it reads the `HOME` variable and a file.
- `get_credentials_from_the_yaml` (src/main.rs:50-56): YAML parsing and `i64` decimal
  formatting are done by libraries.
- `get_body` (src/main.rs:66-75): the HTTP client and its cookie jar. The code checks
  neither the login response nor the final URL, and the model adds no such check.
- HTML parsing and selector parsing and matching (`Html::parse_document`,
  `Selector::parse`, `select`) belong to the `scraper` crate. The elements each
  selector matches, and their text nodes, are an input (`Html`). The three selectors
  are fixed, valid constants, so the `expect` on `Selector::parse` (src/main.rs:100)
  never fires. It is not modelled.
- `StrOps.Split`: it requires a non-empty pattern. `str::split` also accepts `""`, but
  the source only splits on `"hasta"`.
- `StrOps.Lines`: it follows the current `str::lines`, which strips a `'\r'` only when
  it comes just before a `'\n'`. Older Rust releases also stripped a lone trailing
  `'\r'` from the last line. For the first line, which is all `get_money_balance` reads,
  this matters only when the text has no `'\n'` and ends in `'\r'`. For later lines it
  matters whenever the text's last line ends in `'\r'`.
- `StrOps.IsWhitespace`: the Unicode White_Space set is written out as of current
  Unicode versions.
