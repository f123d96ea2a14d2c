# Takeout mbox search, modelled in Dafny

`search_email.py` searches a Google Takeout mail export, a single mbox file.
The first run scans the archive and builds a SQLite index. The index holds one
row per message: its byte extent (offset, size), its `Date` header, that date
normalised to UTC as `YYYY-MM-DD HH:MM:SS`, its sender and its subject.

A search then works in three steps:
- it composes a `SELECT` from the optional filters (date range, sender,
  subject) and gets back rows newest first;
- for a body filter, it seeks back into the archive to read each candidate
  message and tests the message's body text;
- it emits at most max(`--limit`, 1) results (none for `--limit 0` without
  `--body`), or just counts them.

This project models that core as pure functions and two loops over
sequences, and proves what each piece promises.

| file | module | what it holds |
|---|---|---|
| `common.dfy` | `Common` | bytes, `Option`, `Concat`, `Filter`, pairwise order, substring and ASCII case folding |
| `headercut.dfy` | `HeaderCut` | `bytes.find` and the header block handed to the header parser |
| `batching.dfy` | `Batching` | the 5000-record insert batches |
| `scanner.dfy` | `Scanner` | the mbox splitter, the index records and the `create_index` loop |
| `timestamp.dfy` | `Timestamp` | the `YYYY-MM-DD HH:MM:SS` text and why comparing it as text is chronological |
| `like.dfy` | `SqlLike` | SQLite `LIKE ... COLLATE NOCASE` on the `%needle%` patterns |
| `query.dfy` | `Query` | `search_index`: the conditions, parameters, WHERE text and LIMIT, evaluated on records |
| `mime.dfy` | `Mime` | the MIME tree, its pre-order walk and `get_body_text` |
| `results.dfy` | `Results` | the body filter and limit loop of `main`, `str.strip`, and the 500-character preview |
| `search.dfy` | `Search` | a whole search: `search_index` followed by the loop |

The environment is passed in as parameters:
- The archive is a sequence of byte lines.
- Header parsing (`message_from_bytes`, `decode_header`, `parse_date`, and the
  conversion to UTC) is a function from header bytes to `Option<Fields>`.
  `None` stands for an exception. The UTC instant it yields is written out as
  `YYYY-MM-DD HH:MM:SS` by the model.
- `read_msg_at` is a function from a row to an optional parsed message.
- The table in `ORDER BY date_utc DESC` order is an input sequence.

## Model

| member | source | states |
|---|---|---|
| Scanner.Split | search_email.py:105-153 | The archive splits into no messages exactly when it has no lines. |
| Scanner.SplitValid | search_email.py:105-153 | The messages, concatenated in order, give back the lines. Every message is non-empty. Every message after the first opens with a `From ` line. No message has a `From ` line after its first line, so a leading `From ` line never produces an empty message. |
| Scanner.SplitUnique | search_email.py:105-153 | The split is the only grouping of the lines with those four properties. |
| Scanner.MakeRecord | search_email.py:123-139 | Each message yields exactly one record with its own offset and size. When header parsing raises, the record still keeps that extent, with no date, no UTC date and empty sender and subject. Otherwise the fields are the parsed ones, and the UTC date text is present exactly when the date parsed and reads back as the parsed instant. |
| Scanner.UtcText | search_email.py:133 | A parsed instant is stored as text that reads back as that instant; an unparsed date stores nothing. |
| Scanner.CreateIndex | search_email.py:100-180 | The imperative scan counts one message per group of the split. The batches it inserts are the record list cut into chunks of 5000: concatenated they are the whole record list, and none is empty or larger than 5000. |
| Scanner.IndexContiguous | search_email.py:101-153 | There is one record per message. The first offset is 0, each next offset is the previous offset plus the previous size, and the last extent ends at the archive's end, so there are no gaps or overlaps. |
| Scanner.MessageShape | search_email.py:106 | Every message after the first starts with `From `. When no line is empty, no message is empty. |
| Scanner.IndexExtentReadsMessage | search_email.py:137-157 | Reading the archive at a record's extent yields exactly that message's bytes, and the record is the one built from them. Later extents start at a `From ` line, and, when no line of the archive is empty, the size is positive. |
| Scanner.NextOffset | search_email.py:137-153 | For any run of messages, record k+1 starts where record k ends: its offset is record k's offset plus record k's size. |
| Scanner.RecordExtent | search_email.py:137-153 | For any run of messages, the bytes at record k's extent in the joined run are message k. The record is the one built from those bytes, and its size is their length. |
| Scanner.ScanLines | search_email.py:105-153 | After the line loop, every inserted batch holds exactly 5000 records and the open batch fewer. A message is still open exactly when the archive has a line. |
| HeaderCut.Find | search_email.py:125 | `bytes.find`: -1 exactly when the pattern does not occur, otherwise the first position where it occurs. |
| HeaderCut.HeaderBlock | search_email.py:125-128 | The header block is a prefix of the message. It ends at the first `\n\n` when there is one. Failing that, it ends at the first `\r\n\r\n`. Failing both, it is the first 4096 bytes or all of a shorter message. |
| Batching.ChunksOfSound | search_email.py:141-147 | The batches, concatenated, are the records. Each batch holds 1 to 5000 records and all but the last hold exactly 5000. There are no batches exactly when there are no records. |
| Batching.ChunksOfFullBatches | search_email.py:141-180 | Flushing each full batch of 5000, then the non-empty remainder at the end, yields exactly the chunking of the whole record list. |
| Timestamp.Format | search_email.py:133 | The UTC date text is always 19 characters wide. |
| Timestamp.FormatOrder | search_email.py:133 | For valid instants, one text sorts before another exactly when its instant is earlier, and two texts are equal exactly when the instants are. |
| Timestamp.ParseFormat | search_email.py:133 | Reading a date text back gives the instant it was made from. |
| Timestamp.FormatParse | search_email.py:133 | Every text that reads as an instant is that instant's text. |
| SqlLike.LikeIsSubstring | search_email.py:212-217 | For a needle without `%` or `_`, the pattern `%needle%` matches a text exactly when the text contains the needle, ignoring ASCII case. |
| SqlLike.UnderscoreIsWildcard | search_email.py:214 | An `_` in the needle matches any character, so a text can match without containing the needle. |
| Query.BuildQuery | search_email.py:221 | The LIMIT clause is absent exactly when counting or when a body needle is given, and otherwise carries `--limit`. |
| Query.QueryInOrder | search_email.py:206-217 | The conditions come in the fixed order date-from, date-to, sender, subject, and none occurs twice. |
| Query.QueryConditionsSelected | search_email.py:206-217 | Each condition is present exactly when its option is given. An empty sender or subject counts as not given. |
| Query.QueryParamsFit | search_email.py:206-217 | Each condition carries its own parameter: midnight of the given day, or the needle wrapped in `%`. |
| Query.WherePlaceholders | search_email.py:219 | The WHERE text has exactly one `?` per parameter, `1=1` included. |
| Query.NoFiltersSelectAll | search_email.py:219 | With no filter given, there is no condition, the clause is `1=1`, and every row passes. |
| Query.DateBoundsChronological | search_email.py:206-211 | A row passes the from-bound exactly when its instant is at or after that day's midnight (inclusive). It passes the to-bound exactly when its instant is strictly before that midnight (exclusive). A row without `date_utc` passes neither. |
| Query.IndexWellFormed | search_email.py:133-137 | Every row the index build writes has no `date_utc` or one that reads back as an instant. |
| Query.WhereMeansRowMatches | search_email.py:203-219 | For wildcard-free needles and well-formed dates, a row passes the composed WHERE clause exactly when it meets every given filter as read chronologically and case-insensitively. |
| Query.ApplyLimit | search_email.py:221 | SQLite `LIMIT`: the result is a prefix of the rows. It is all of them with no limit or a negative one, and otherwise the first min(limit, #rows). |
| Query.SearchIndex | search_email.py:219-224 | The rows returned are a prefix of the rows passing the WHERE clause. They are all such rows when counting, filtering on the body, or given a negative limit. Otherwise they are the first min(limit, #) of them. |
| Mime.Walk | search_email.py:38 | `Message.walk` in pre-order: the node, then each part's walk in turn. The walk is never empty and starts with the node itself. |
| Mime.FirstUsable | search_email.py:38-43 | The first node of the walk with the wanted type and non-empty payload bytes, or -1 when there is none. |
| Mime.BodyText | search_email.py:36-55 | A single-part message yields its decoded payload whatever its type, and the empty text when its payload bytes are empty. A non-empty body of a multipart message is the decoded payload of some `text/plain` or `text/html` node of its walk with non-empty bytes. |
| Mime.BodyTextPreference | search_email.py:37-49 | In a multipart message the first `text/plain` node with non-empty bytes wins, and its decoded text is the body even when empty. Only when there is no such node does the first such `text/html` node count. When neither exists the body is empty. |
| Mime.ByteOrderMarkHidesHtml | search_email.py:37-49 | A `text/plain` part whose bytes are only a byte-order mark is chosen, and its empty decoding is the body, although a later `text/html` part has text. |
| Mime.BodyTextFromPart | search_email.py:37-49 | A multipart root has no payload of its own, so a non-empty body is the decoded text of a usable `text/plain` or `text/html` node inside the walk of one of its parts. |
| Mime.NonTextBodies | search_email.py:50-55 | An attachment-only multipart message has an empty body. A single-part image answers with its decoded payload. |
| Results.Strip | search_email.py:359 | `str.strip()`: the result is a slice of the input with only whitespace outside it. It is empty only when the input is all whitespace, and otherwise starts and ends with a non-space. |
| Results.StripRange | search_email.py:359 | Everything `strip` removes is whitespace. It removes the whole text only when the text is all whitespace, and otherwise keeps a run that starts and ends with a non-space. |
| Results.StripKeepsTrimmed | search_email.py:359 | Stripping leaves a trimmed text unchanged, so stripping twice is stripping once. |
| Results.Preview | search_email.py:371 | The preview is a prefix of the body, of length min(500, length of the body). |
| Results.PreviewForms | search_email.py:280 | The conditional JSON form gives the same preview. The "chars total" note appears exactly when the preview cut something. |
| Results.BodyFilter | search_email.py:347-353 | A row is kept exactly when no body needle is given, or its message parses and its body contains the needle, ignoring case. |
| Results.FetchBody | search_email.py:356-359 | Nothing is fetched when counting or under `--no-body`. Otherwise the body is the stripped body text when the message was read and has at least one header, and the empty text when it was not read or has no headers, as line 359 is written. |
| Results.EmitResults | search_email.py:344-379 | Under `--count`, nothing is emitted and `found` is the number of kept rows. Otherwise the first min(max(limit, 1), #kept) kept rows are emitted in order with their bodies as line 359 shows them. Because the limit test follows the increment, a limit of zero or less still emits one row. |
| Results.ShownBody | search_email.py:359 | The corrected test (see Findings): a read message is shown with its stripped body text, which is empty only when that text is all whitespace; an unread one is shown empty. |
| Results.ShownBodyAsWritten | search_email.py:359 | As written, the shown body agrees with the corrected one for a message that was not read or has a header, and is empty for a message without headers. |
| Results.KeptBodyShowsNeedle | search_email.py:347-359 | With the corrected test, a message the body filter keeps is shown with a body containing the needle, when the needle neither starts nor ends with whitespace. |
| Results.HeaderlessMessageLosesBody | search_email.py:359 | As written, a parsed message with no headers passes the body filter yet is shown with an empty body. |
| Search.RunSearch | search_email.py:339-379 | Counting gives the number of rows passing both filters, whatever the limit. Otherwise the first min(max(limit, 1), #matches) matches are emitted, except that a zero limit without a body needle emits nothing. The emitted rows carry their bodies as line 359 shows them and keep the newest-first order. |
| Search.SearchMeansWanted | search_email.py:203-353 | For wildcard-free needles and well-formed dates, the rows a search selects are exactly those meeting every given filter whose body (when a needle is given) contains the needle, in table order. |
| Search.IndexSearchMeansWanted | search_email.py:133-353 | Over rows the index build wrote, in any order, a search with wildcard-free needles selects exactly the wanted rows. |

## Left out

- SQLite itself is not modelled: the connection, the DDL, `executemany`, the commits and the sort. The table is a sequence of records, and `ORDER BY date_utc DESC` is an input sequence. `Search.DescBefore` states that order and `Search.RunSearch` shows the results keep it.
- The row `id` column is not modelled: nothing in the core computes with it.
- Header parsing, `decode_header`, `parse_date` and the UTC conversion are left out because they are library calls. They are a function parameter that may fail.
- `Timestamp.Format`: always writes a four-digit year. Some C libraries do not pad `%Y` for years below 1000.
- `Mime.BodyText`: the charset codecs are not modelled, so a leaf's decoded text is part of the input. With an unknown charset (say `unknown-8bit`), `payload.decode` at lines 43, 49 and 54 raises `LookupError` despite `errors="replace"`. Nothing catches it at line 351 or 359, so the whole search aborts. The model has no such failure.
- `Results.BodyFilter`: lower-cases ASCII letters only. Python's `str.lower()` also folds non-ASCII letters. SQLite's `NOCASE`, by contrast, is ASCII-only and is modelled exactly.
- `Query.WhereMeansRowMatches`: holds only for needles without `%` or `_`, which SQLite treats as wildcards (`SqlLike.UnderscoreIsWildcard`).
- `Search.SearchMeansWanted`: holds only for needles without `%` or `_`, and for rows whose `date_utc` is well formed. `Search.IndexSearchMeansWanted` shows the second holds for every row the index build writes.
- `Results.KeptBodyShowsNeedle`: holds only for needles that neither start nor end with whitespace, since the shown body is stripped.
- `Scanner.CreateIndex`: takes the archive already cut into lines. Python's binary line iteration (a line ends after each `\n`) is not modelled.
- File reads and seeks, including `read_msg_at`, are left out: they are I/O, replaced by the function parameter.
- Progress and ETA reporting are left out: they are floating-point, clock and stderr output only.
- Output rendering is left out (JSON, YAML and the text layout), apart from the 500-character preview and the body length.
- `show_email`, argument parsing, path discovery and `cli.py` are left out: they only dispatch to the modelled core.

## Findings

| source | as written | input that shows it | evidently intended | confidence | as-written member | corrected member |
|---|---|---|---|---|---|---|
| search_email.py:359 | `get_body_text(msg).strip() if msg else ""` tests the message's truth value, which is its header count | an mbox entry `From x` followed directly by a blank line and `hello`, searched with `--body hello`: the body filter (which tests `msg is None`) keeps it, then it is shown with an empty body and `body_length` 0 | `if msg is not None`, as in the body filter | medium; not executed | Results.HeaderlessMessageLosesBody | Results.KeptBodyShowsNeedle |

The result loop (`Results.EmitResults`, `Search.RunSearch`) follows line 359 as written. `Results.ShownBody` is the corrected test, and `Results.ShownBodyAsWritten` states where the two agree.
