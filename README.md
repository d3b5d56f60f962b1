# A verified model of a minimal NNTP server

`Server.cpp` implements a small news server that speaks a subset of NNTP
(RFC 3977): QUIT (section 5.4), GROUP (section 6.1.1), LISTGROUP (section
6.1.2), ARTICLE (section 6.2.1) and POST (section 6.3.1). It serves one
client at a time. For each connection it sends a greeting, then repeats
three steps until the client quits or stops sending:

- it receives chunks until the text received ends with CRLF;
- it splits that line into a command name and an argument;
- it runs the command's handler.

The handlers work over an in-memory store:

- `articles`: the list of posted texts, where article id *n* is at index *n − 1*;
- `groups`: maps each newsgroup name to the ids filed under it, in posting order.

Each Dafny `char` of a `string` stands for one byte of the C++
`std::string`.

This project models that server in Dafny as a class, `Nntp.Server`:

- Its fields are those of the C++ object, plus two more:
  - `output`: every message the server sends;
  - `input`: what the remaining `recv` calls return. Each element is a
    chunk of bytes or a failure. An empty chunk stands for end of stream.
- Each handler is a method with a `modifies` frame. Its contract states the
  reply and the new state for every branch of the C++ code.
- The loops of the source stay loops, with invariants:
  - the request framer;
  - the POST receive loop;
  - the group registration loop;
  - the id listing loop;
  - the per-client command loop.

The invariant `Valid()` holds before and after every handler and across the
command loop. It says:

- every group lists at least one id, so `front()` and `back()` are safe;
- ids are in posting order;
- every id names a stored article;
- a selected group exists.

With the POST receive loop corrected as below, one consequence is that
ARTICLE without an argument never indexes past the store, although the C++
code has no bounds check there (Server.cpp:255, 269). With the loop as
written this does not hold: a failed POST can leave a group listing an id
that names no article (see Findings).

The modules follow the layers of the server:

| module | file | contents |
|---|---|---|
| `Text` | text.dfy | what the server takes from the C and C++ libraries: `istream >> string` tokenising, `std::string::find`, `atoi`, printing of unsigned numbers |
| `Framing` | framing.dfy | `recv` results and how the request loop cuts a line out of them |
| `Repository` | repository.dfy | the group index, its invariant, group registration, and the `221` summary and LISTGROUP listing formats |
| `Posting` | posting.dfy | when a POST body is complete; which groups an article is filed under; the POST receive loop as written, kept to exhibit its defects |
| `Nntp` | server.dfy | the `Server` class: parser, framer, handlers, dispatch and the per-client loop |

Where the code and RFC 3977 (or the behaviour one would expect) differ, the
model follows the code:

- GROUP and LISTGROUP answer `221`, not `211`.
- Each reply code is followed by a tab, except in the `221` summary line,
  where the code and the fields are separated by spaces (Server.cpp:193-196).
- The summary line prints the request argument as the group name.
- LISTGROUP checks that the *argument* names a group (Server.cpp:181), not
  the effective selection. As a result, LISTGROUP without an argument never
  lists anything:
  - with no group selected it answers `412`;
  - otherwise it answers `411` and deselects the group.
- A request line without any token does not reset the command name. The
  previous command name stays in place, so the previous command runs again
  with an empty argument. The line gets `500` only when that previous name
  is empty or not a command.
- The framer does not stop at the first CRLF. It stops at the first read
  after which the whole text received ends with CRLF. A chunk holding
  `GROUP a\r\nQUIT\r\n` is therefore one request, `GROUP a`, and everything
  after the first two tokens is lost.
- An article that lists a group twice (`Newsgroups: a a`) is filed twice
  under it (Server.cpp:233-239), so `GROUP a` then counts 2 for one article.
  One would expect the ids of a group to be distinct. The model keeps the
  duplicates: `Repository.RegisterContents` counts the id once per listing,
  and `Repository.Ascending` allows equal neighbours.
- In the request framer, `recv` returning 0 and returning −1 both end the
  session (Server.cpp:130-138). The POST receive loop tests only for −1
  (Server.cpp:222): a 0 appends nothing and the loop reads again (see
  Findings).

The POST receive loop is modelled twice. `Posting.PostLoopAsWritten` follows
the code, to exhibit its defects. `Nntp.Server.ReceiveArticle` and
`Nntp.Server.Post` are corrected, and the rest of the model uses them:

- the loop is left once the terminator has been received;
- the article is filed once, when it is stored;
- end of stream, like a failed read, ends the POST with `441`.

## Model

| member | source | states |
|---|---|---|
| Text.TakeWord | Server.cpp:150 | one `>>` extraction takes the longest whitespace-free prefix, and the character after it, if any, is whitespace |
| Text.Tokens | Server.cpp:149-154 | successive extractions yield whitespace-free, non-empty tokens |
| Text.TokensKeepLetters | Server.cpp:149-154 | joined together, the tokens are the line's non-whitespace characters in order: extraction drops only whitespace |
| Text.TokensAppend | Server.cpp:149-154 | a text ending in whitespace tokenises as its own tokens followed by those of the rest |
| Text.TokensOfWordThen | Server.cpp:150 | a token followed by whitespace is the first thing extracted |
| Text.TokensOfSpaced | Server.cpp:193-196 | words printed with single spaces tokenise back to the same words, whatever whitespace-led text follows |
| Text.TokensOfSpacedWords | Server.cpp:231-233 | a space-separated list of names reads back as exactly those names |
| Text.FindFrom | Server.cpp:228 | `find` returns the first offset at or after the start where the pattern occurs, or nothing when there is none |
| Text.FirstOccurrence | Server.cpp:228 | a pattern whose first character does not appear earlier is found at the offset where it is placed |
| Text.CrlfAfter | Server.cpp:230 | the CRLF search from the header offset stops at the first CRLF after CR-free text |
| Text.Atoi | Server.cpp:261 | text that does not start with whitespace, a digit or a sign reads as 0 |
| Text.NatToString | Server.cpp:193-195 | a printed number is a non-empty run of digits with no leading zero |
| Text.AtoiOfNatToString | Server.cpp:261 | `atoi` of a printed id gives the id back |
| Framing.StripCrlf | Server.cpp:142 | the request handed to the parser, followed by CRLF, is exactly the text received |
| Framing.NoEarlierLineSnoc | Server.cpp:128-129 | a read after which the text still does not end with CRLF keeps the loop going |
| Framing.LineCutUnique | Server.cpp:128-141 | the framer's cut is determined by the chunks: two runs that each stop at the first CRLF-ending read consume the same chunks |
| Repository.RegisterKeys | Server.cpp:233-239 | after registration, the groups are the old groups plus every listed name |
| Repository.RegisterContents | Server.cpp:234-239 | a group keeps its ids and gets the new id once per time it is listed |
| Repository.RegisterKeepsWellFormed | Server.cpp:234-239 | registering the next id keeps every list non-empty, ordered and within the stored ids |
| Repository.Add | Server.cpp:234-239 | a name not yet known becomes a group listing just the id; a known group gets the id appended; every other group is unchanged |
| Repository.Register | Server.cpp:233-239 | registration removes no group and moves no id |
| Repository.NewGroupSummary | Server.cpp:236 | a group first named by one article lists just that id, and its summary reports count 1 with that id as first and last |
| Repository.Summary | Server.cpp:193-196 | the summary line starts with `221` and a space and ends with CRLF |
| Repository.SummaryFields | Server.cpp:193-196 | the summary line is five tokens: `221`, the count, the first id, the last id, the name |
| Repository.SummaryReadsBack | Server.cpp:193-196 | a client parsing the summary gets back the count and the first and last ids |
| Repository.IdLines | Server.cpp:204-206 | there are no id lines exactly when the group lists no id; otherwise the text ends with CRLF |
| Repository.Listing | Server.cpp:204-207 | the listing ends with the line `.` |
| Repository.IdLinesTokens | Server.cpp:204-206 | the id lines tokenise to the printed ids in list order |
| Repository.ListingFields | Server.cpp:204-207 | the listing tokenises to the ids in order, then `.` |
| Repository.ListingReadsBack | Server.cpp:204-207 | a client parsing the listing gets back every id of the group in order, then `.` |
| Posting.HeaderNames | Server.cpp:228-233 | the names taken from the `Newsgroups:` header are tokens |
| Posting.NoEarlierBodySnoc | Server.cpp:243 | a read after which the terminator is still absent keeps the corrected loop going |
| Posting.HeaderFirstAt | Server.cpp:228 | when no `Newsgroups:` occurs before a given offset and one occurs there, `find` returns that offset |
| Posting.HeaderNamesOfValue | Server.cpp:228-231 | when no `Newsgroups:` occurs earlier in the text and the header value holds no CR, the names are the tokens between that header and the CRLF after it |
| Posting.HeaderNamesOfHeaderLine | Server.cpp:228-233 | an article whose first `Newsgroups:` occurrence, anywhere in the text, is followed by names separated by single spaces and a CRLF is filed under exactly those names, in order |
| Posting.LeavesLoopAsWritten | Server.cpp:243 | as written, the loop is left exactly when the terminator is not at offset 0, so also when it is absent |
| Posting.PostLoopAsWritten | Server.cpp:220-246 | as written, the index only grows; a stored text extends what was received before and does not open with the terminator |
| Posting.AsWrittenPass | Server.cpp:220-246 | as written, a pass that does not leave the loop files the pending id and reads on |
| Posting.AsWrittenStoresIncompleteBody | Server.cpp:243 | as written, a first chunk without the terminator ends the POST and the article is stored incomplete |
| Posting.AsWrittenTwoPasses | Server.cpp:220-246 | as written, two chunks that keep the loop going followed by a failed read file the pending id once per chunk and store no article |
| Posting.AsWrittenRegistersEveryPass | Server.cpp:228-246 | as written, a body that starts with the terminator files id 1 under group `a` on every pass; after a failed read group `a` lists 1 twice while no article 1 exists |
| Posting.AsWrittenEmptyPass | Server.cpp:221-245 | as written, a read of 0 bytes while the loop keeps going files the pending id again and reads on |
| Posting.AsWrittenSpinsFrom | Server.cpp:221-245 | as written, `n` reads of 0 bytes while the loop keeps going file the pending id `n` more times and leave the loop running |
| Posting.AsWrittenPassThenSpins | Server.cpp:221-245 | as written, a chunk that keeps the loop going followed by `n` reads of 0 bytes files the pending id `n + 1` times |
| Posting.AsWrittenSpinsAtEndOfStream | Server.cpp:221-245 | as written, after a first chunk `CRLF . CRLF Newsgroups: a CRLF`, any number `n` of reads of 0 bytes leave the POST running, with group `a` listing id 1 `n + 1` times and no article stored |
| Nntp.TableEntry | Server.cpp:40-44 | each of `QUIT`, `GROUP`, `LISTGROUP`, `POST` and `ARTICLE` reaches its handler, and no other name does |
| Nntp.RequestParses | Server.cpp:148-155 | a request `VERB ARG ...` parses to the verb and its arguments |
| Nntp.ArticleReply | Server.cpp:267-269 | the reply ends with the stored text, unchanged, after a header of six bytes plus the digits of the id |
| Nntp.ArticleReplyReadsBack | Server.cpp:267-270 | the first CRLF of an ARTICLE reply ends a status line `202`, tab, id, with the id readable back, and what follows is the stored text, byte for byte |
| Nntp.Server.constructor | Server.cpp:40-44 | a new server has an empty store, no selection, and satisfies the invariant |
| Nntp.Server.Send | Server.cpp:104-117 | a message is appended whole to the output |
| Nntp.Server.Recv | Server.cpp:130 | a read returns the next chunk, or fails once nothing is left |
| Nntp.Server.ProcessSingleLineRequest | Server.cpp:148-155 | the command name becomes the first token, or keeps its value when there is none; the argument is the second token or empty |
| Nntp.Server.ReceiveRequest | Server.cpp:128-141 | all chunks but the last delivered bytes, no earlier read left text ending with CRLF, and either the text ends with CRLF or the last read failed or hit end of stream |
| Nntp.Server.ReadSingleLineRequest | Server.cpp:124-146 | on success the text received ends with CRLF and is parsed without it; otherwise `clientDone` is set and the command is left untouched |
| Nntp.Server.Quit | Server.cpp:158-161 | QUIT sends `205` and sets `clientDone` |
| Nntp.Server.CurrentGroupRepresentation | Server.cpp:189-198 | the summary reads back as `221`, the group's count, its first and last ids, and the argument |
| Nntp.Server.Group | Server.cpp:163-172 | an unknown name gets `411` and clears the selection; a known one is selected, resets the current article to 1 and gets its summary; the invariant is kept |
| Nntp.Server.CurrentGroupArticlesId | Server.cpp:200-209 | the listing is every id of the selected group on its own line, then `.`, and it tokenises back to those ids |
| Nntp.Server.ListGroup | Server.cpp:174-187 | no argument and no selection gets `412` and changes nothing; no argument with a selection gets `411` and deselects; an unknown argument gets `411` and deselects; a known one is selected and gets the summary plus the listing |
| Nntp.Server.UnsupportedOperation | Server.cpp:211-214 | exactly `500` is sent |
| Nntp.Server.RegisterGroups | Server.cpp:233-241 | the loop leaves the groups equal to registering the id under each listed name in turn |
| Nntp.Server.ReceiveArticle | Server.cpp:219-246 | the receive loop, corrected, reads until the terminator first appears, and gives nothing at a failed read or at end of stream |
| Nntp.Server.Post | Server.cpp:216-249 | `340` comes first; a failed read or end of stream gets `441` and leaves the store unchanged; otherwise the text is stored as the next id, filed under its header's groups, and `240` follows; the invariant is kept |
| Nntp.Server.Article | Server.cpp:251-271 | no argument and no selection gets `412`; no argument gets the current article of the selected group, which is always a stored id; an argument whose `atoi` value is not a stored id gets `430`; otherwise `202 <id>` and the text |
| Nntp.Server.Dispatch | Server.cpp:67-90 | an unknown command gets exactly `500` and changes nothing else; QUIT gets `205`; GROUP, LISTGROUP, ARTICLE and POST each get the reply and the new selection, store and input that their handlers promise; only QUIT ends the session; only POST touches the input or the store; the store only grows; the invariant is kept |
| Nntp.Server.Serve | Server.cpp:60-91 | the greeting comes first; the loop ends with `clientDone` set; the invariant holds; articles are only appended; groups only grow |

## Left out

- Sockets are not part of this model, and neither are bind/listen/accept,
  the accept loop and closing descriptors (Server.cpp:18-38, 47-58, 92,
  98-102). `Nntp.Server.Serve` models a single connection. The store and the
  selected group carry over between calls, as they do between connections.
- Console output is not modelled: the logging in `sendMessage`
  (Server.cpp:104-117) and the `std::cout` and `perror` lines at
  Server.cpp:131, 143, 212 and 240.
- `sendMessage` is modelled without its partial sends. A send always succeeds, so a failed send never sets
  `clientDone`.
- `recv` is replaced by the `input` field:
  - a chunk may have any length, so the `BUFFER_SIZE` and `ARTICLE_SIZE`
    limits are not modelled;
  - a read past the end of `input` counts as a failure, where a real closed
    peer returns 0 forever. The framer and the corrected POST end at the
    first 0 anyway. For the POST loop as written, the endless run of 0s is
    modelled by `Posting.EndOfStream`.
- POST fills `articleBuffer` but appends from `textBuffer`
  (Server.cpp:221, 226). The model appends the chunk that was received;
  what the stale `textBuffer` would contribute is not modelled.
- `Posting.PostLoopAsWritten`: it takes a finite list of chunks and stops
  with no article when they run out. That it never stops on a closed
  connection is stated by `Posting.AsWrittenSpinsAtEndOfStream`, for every
  number of reads.
- `Text.Atoi`: the value is an unbounded integer, so the undefined behaviour
  of `atoi` on overflow is not modelled. A negative value wraps to a huge
  `size_t` in the source; the model treats it as out of range, with the
  same `430` answer.
- `Server.h` is not part of this model. The field types are inferred from
  use. `currentArticle` is only ever assigned 1, so `Valid()` requires it to be
  1; the constructor sets it so.
- `Nntp.Server.Serve`: its contract covers the greeting, termination, the
  invariant and the growth of the store. It does not state the reply to
  each request; each handler's contract states that.
- The source has no concurrency, so none is modelled.

## Findings

The inputs below assume that POST appends the chunk it received. As written,
it appends as many bytes from `textBuffer`, the request line's read buffer
(Server.cpp:221, 226; see "## Left out"). For each row, the cell also gives
an input that shows the defect in the code as written, with `textBuffer`
prepared by how the request line arrives.

| source | as written | input that shows it | evidently intended | confidence | as-written member | corrected member |
|---|---|---|---|---|---|---|
| Server.cpp:243 | the result of `find` is used as a condition: the loop exits whenever the terminator is absent or not at offset 0 | a POST whose first chunk is `body` and second is the terminator: `body` is stored as the article and `240` is sent. As written: `POST\r\n` in one read, then a body read of 4 bytes; `POST` is stored and `240` is sent | leave the loop once the terminator has been received | not executed | Posting.AsWrittenStoresIncompleteBody | Nntp.Server.ReceiveArticle |
| Server.cpp:228-241 | the pending id is filed under the header's groups on every pass of the receive loop, before the outcome is known | chunks `CRLF . CRLF Newsgroups: a CRLF`, then `x`, then a failed read: `441` is sent, no article is stored, and group `a` lists id 1 twice; a following `GROUP a` and `ARTICLE` then read `articles[0]` of an empty store (Server.cpp:255, 269). As written: the request line read as `POST `, then `xx.\r\nNewsgroups: a\r\nz`, then `\r\n`, so `textBuffer` starts `\r\n.\r\nNewsgroups: a\r\n`; then body reads of 20 and 1 bytes, then a failed read: same outcome | file the article once, when it is stored | not executed | Posting.AsWrittenRegistersEveryPass | Nntp.Server.Post |
| Server.cpp:221-245 | only −1 from `recv` is tested; the 0 of a closed connection appends nothing and the loop reads again, filing the pending id on each pass | a first chunk `CRLF . CRLF Newsgroups: a CRLF`, then the client closes: the POST never ends and group `a` gets id 1 once more on every read. As written: the request line split as in the row above, a body read of 20 bytes, then the client closes: same outcome | end of stream ends the POST with `441` | not executed | Posting.AsWrittenSpinsAtEndOfStream | Nntp.Server.ReceiveArticle |
