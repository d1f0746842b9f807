# A verified model of the quinn file server's request handler

The repository's QUIC file server answers each bidirectional stream with
`handle_request` (`src/quinn-server.rs`). The handler reads one request
line of at most 64 KiB and checks that it is `GET <path>\r\n`. It cuts the
path at its first space and requires UTF-8. It resolves the path under the
served root, accepting only a leading root followed by normal names. It then
answers with the line `HTTP/3 404 NotFound\r\n` when the file does not open.
Otherwise it sends the file in 100 KiB chunks read by `read_exact`. Every
failure on the way is a `panic!`. The client (`src/quinn-client.rs`) builds
its request line as `GET {path} HTTP/3\r\n`.

The model is split into six modules:

- `Bytes` (bytes.dfy): the `u8` byte type, and the first-occurrence search
  `iter().position(..).unwrap_or(len)`.
- `Utf8` (bytes.dfy): the well-formedness test behind `str::from_utf8`, with
  the byte ranges of table 3-7 of the Unicode Standard.
- `StdPath` (paths.dfy): the Unix behaviour of `Path::components` and
  `PathBuf::push`.
- `Transport` (transport.dfy): the write side of a QUIC stream (`SendStream`)
  and the buffered file reader (`FileReader`). Both are classes whose methods
  update their fields.
- `Server` (server.dfy): the request parser (a function) and the resolution
  loop (a method, proved against the function `Resolution`). It also holds
  the copy loop (a method over a 100 KiB `array`), the whole handler
  `HandleRequest` (a method, proved against the function `Route`), and the
  properties of the exchange.
- `Client` (client.dfy): the request line, its round trip through the
  server's parser, and concrete scenarios.

A panic is the outcome `Panicked(failure)`, with one `Failure` per panic
the model can reach: the size cap on the request, the two marker checks,
the UTF-8 check and the two path checks. The panicking `unwrap`s on transport
results cannot fail in the model, because transport errors are not
modelled: at line 157 every read error other than the size cap, and at
lines 200, 205, 221 and 229 every write or finish error. The filesystem is a map from path bytes to what
`File::open` finds there: a regular file with its bytes, or a directory.
A directory opens, but reading from it yields nothing. A path missing from
the map does not open.

Two behaviours of the code are easy to miss. The model follows the code in
both:

- A file is not returned byte for byte. `read_exact` fails on a short final
  read, which ends the loop. So a trailing partial chunk is never sent, and
  a file smaller than 100 KiB yields no bytes at all
  (`Server.PartialChunkDropped`, `Client.SmallFileSendsNothing`).
- The client's ` HTTP/3` token is not rejected by the server. The path is
  cut at the first space, so the token is silently dropped
  (`Client.ServerReadsUpToSpace`, `Client.RequestLineRoundTrip`).

## Model

| member | source | states |
|---|---|---|
| Bytes.FirstIndex | src/quinn-server.rs:174 | the result is at most the length, no earlier byte is the searched one, and a result below the length points at it |
| Bytes.FirstIndexUnique | src/quinn-server.rs:174 | those three properties determine the search result |
| Bytes.FirstIndexConcat | src/quinn-server.rs:174 | searching `s + w` finds the match in `s` if there is one, and otherwise the match in `w` shifted by the length of `s` |
| Bytes.FirstIndexFinds | src/quinn-server.rs:174 | the search stops before the end exactly when the byte occurs |
| Utf8.CharWidth | src/quinn-server.rs:175 | a scalar is one to four bytes; it is one byte exactly for ASCII, and later bytes are continuation bytes |
| Utf8.ValidUtf8 | src/quinn-server.rs:175 | no contract of its own: `str::from_utf8(..).is_ok()` as a chain of well-formed scalars; its properties are stated by `Utf8.AsciiIsUtf8`, `Utf8.PrefixBeforeAscii` and `Server.ValidInnerAccepted` |
| Utf8.CharWidthPrefix | src/quinn-server.rs:175 | cutting after the first scalar does not change its width |
| Utf8.AsciiIsUtf8 | src/quinn-server.rs:175 | ASCII text passes `str::from_utf8` |
| Utf8.PrefixBeforeAscii | src/quinn-server.rs:174-175 | valid UTF-8 cut just before an ASCII byte (such as the first space) is still valid |
| StdPath.PieceComponents | src/quinn-server.rs:178 | empty and `.` pieces give nothing, `..` gives `ParentDir`, any other slash-free piece gives one normal name; never `RootDir` or `CurDir` |
| StdPath.Pieces | src/quinn-server.rs:178 | the `/` split inside `components` has at least one piece; `StdPath.PiecesSlashFree`, `StdPath.PiecesOfPiece` and `StdPath.PiecesJoin` state the rest |
| StdPath.PiecesComponents | src/quinn-server.rs:178 | split pieces never start with `RootDir` or `CurDir` |
| StdPath.Segments | src/quinn-server.rs:178 | components of text after the first never start with `RootDir` or `CurDir` |
| StdPath.Components | src/quinn-server.rs:178-182 | the first component is `RootDir` exactly when the path starts with `/` |
| StdPath.PiecesSlashFree | src/quinn-server.rs:178 | no piece of a split path holds a separator |
| StdPath.PiecesComponentsSegments | src/quinn-server.rs:183-190 | slash-free pieces yield only `ParentDir` and normal names |
| StdPath.ComponentsAfterFirst | src/quinn-server.rs:183-190 | every component after the first is `..` or a normal name (non-empty, no `/`, not `.` or `..`), so the loop's two arms cover everything |
| StdPath.Push | src/quinn-server.rs:186 | no contract of its own: `PathBuf::push` of a relative name on Unix; its properties are stated by `StdPath.PushExtends`, `StdPath.PushAfterSlash` and `StdPath.PushComponents` |
| StdPath.PushExtends | src/quinn-server.rs:186 | `push` keeps the buffer as a prefix and ends with the pushed name |
| StdPath.PiecesOfPiece | src/quinn-server.rs:178 | slash-free text is a single piece |
| StdPath.SegmentsOfPiece | src/quinn-server.rs:178 | slash-free text has the components of its single piece |
| StdPath.PiecesJoin | src/quinn-server.rs:178 | a separator splits the pieces: the pieces of `s/t` are those of `s` followed by those of `t` |
| StdPath.PiecesJoinNamed | src/quinn-server.rs:178 | the inductive step of that split when `s` starts with a name byte |
| StdPath.PiecesComponentsConcat | src/quinn-server.rs:178 | the components of concatenated piece lists concatenate |
| StdPath.SegmentsJoin | src/quinn-server.rs:178 | the segments of `s/t` are those of `s` followed by those of `t` |
| StdPath.ComponentsJoin | src/quinn-server.rs:178 | the components of `p/t` are those of `p` followed by the segments of `t`, for non-empty `p` |
| StdPath.ComponentsJoinLead | src/quinn-server.rs:178 | the same when `p` starts with a root or a `.` piece |
| StdPath.ComponentsJoinPlain | src/quinn-server.rs:178 | the same when `p` is plain relative text |
| StdPath.SegmentsEmpty | src/quinn-server.rs:178 | empty text has no segments |
| StdPath.ComponentsOfName | src/quinn-server.rs:178 | a normal name on its own is one `Normal` component |
| StdPath.PushAfterSlash | src/quinn-server.rs:186 | pushing a name onto a path ending in `/` adds exactly that name as its last component |
| StdPath.RootThenName | src/quinn-server.rs:186 | `/` followed by a name has the root's components plus that name |
| StdPath.PushComponents | src/quinn-server.rs:186 | pushing a normal name onto any path adds exactly that name as its last component |
| Transport.SendStream.constructor | src/quinn-server.rs:152 | a new stream has sent nothing and is not finished |
| Transport.SendStream.WriteAll | src/quinn-server.rs:197-201 | every byte is appended to what was sent; the stream stays open |
| Transport.SendStream.Write | src/quinn-server.rs:218-222 | the returned count of bytes is appended; here the count is the whole slice |
| Transport.SendStream.Finish | src/quinn-server.rs:226-230 | the stream becomes finished and what was sent is unchanged |
| Transport.FileReader.constructor | src/quinn-server.rs:213 | the reader starts at the beginning of the opened entry's bytes |
| Transport.FileReader.ReadExact | src/quinn-server.rs:215 | succeeds exactly when a full buffer remains, and then the buffer holds the next bytes; otherwise the content is used up and the bytes read so far are at the front of the buffer |
| Server.ParseRequest | src/quinn-server.rs:166-175 | fails with "missing GET" exactly when the request lacks the `GET ` prefix, and with "missing \r\n" exactly when the prefix is there but the tail is not; on success the request is framed and the path is valid UTF-8, the longest space-free prefix of the bytes between the markers |
| Server.ParseRequestExact | src/quinn-server.rs:166-175 | the parser returns `p` if and only if the request is framed, `p` is valid UTF-8 and `p` is the cut at the first space |
| Server.AcceptedRequestShape | src/quinn-server.rs:167-172 | an accepted request has at least six bytes, starts with `GET ` and ends with `\r\n`, and the path fits between them |
| Server.ValidInnerAccepted | src/quinn-server.rs:173-175 | a framed request whose inner bytes are valid UTF-8 is accepted, with the cut at the first space: cutting never produces invalid UTF-8 |
| Server.PushAll | src/quinn-server.rs:183-192 | no contract of its own: the loop's pushes in order, failing at the first component that is not a name; its properties are stated by `Server.PushAllSucceeds`, `Server.PushAllExtends` and `Server.PushAllComponents` |
| Server.Resolution | src/quinn-server.rs:176-192 | no contract of its own: the resolved path or the panic for a request path; `Server.ResolvePath` is proved equal to it and `Server.ResolutionAccepts`, `Server.ResolutionFailures` and `Server.ResolutionStaysUnderRoot` state its properties |
| Server.ResolvePath | src/quinn-server.rs:176-192 | the loop's result is exactly `Resolution` of the root and path |
| Server.PushAllSucceeds | src/quinn-server.rs:183-191 | pushing succeeds exactly when every component is a name, and a failure names an offending component |
| Server.PushAllExtends | src/quinn-server.rs:183-187 | the result extends the starting buffer |
| Server.PushAllComponents | src/quinn-server.rs:183-187 | pushing names adds exactly those names, in order, to the components |
| Server.PushAllStep | src/quinn-server.rs:185-187 | one name pushed and then the rest adds that name and then the rest |
| Server.ResolutionAccepts | src/quinn-server.rs:176-192 | a path resolves exactly when it starts with `/` and has no `..` component at any depth |
| Server.ResolutionFailures | src/quinn-server.rs:179-191 | resolution fails as "not absolute" exactly for a relative or empty path, and otherwise only on `..` |
| Server.ResolutionStaysUnderRoot | src/quinn-server.rs:176-192 | the resolved path extends the root; its components are the root's followed by the request path's own components after its root, and all of those are names |
| Server.FullChunks | src/quinn-server.rs:210-223 | what is sent is a prefix of the file, a whole number of chunks long, short of the file by less than one chunk |
| Server.Route | src/quinn-server.rs:150-232 | a served path is one that opens; a not-found path is one that does not |
| Server.Output | src/quinn-server.rs:193-223 | no contract of its own: the bytes written for an outcome (none after a panic, the not-found line, or the full chunks); its properties are stated by `Server.NotFoundAnswer`, `Server.ServedAnswer` and `Server.HandleRequest` |
| Server.HandleRequest | src/quinn-server.rs:150-232 | the outcome is `Route`'s; the stream receives exactly the outcome's bytes after what it already held; it is finished exactly when the handler did not panic |
| Server.CopyChunks | src/quinn-server.rs:210-223 | the counter ends at the number of full chunks, the stream receives exactly the full chunks in order, and it stays open |
| Server.RoutePanics | src/quinn-server.rs:154-192 | the handler panics exactly when the request is too long, does not parse, or names a relative path or one with `..` |
| Server.RouteOpensUnderRoot | src/quinn-server.rs:176-193 | every path the handler opens extends the root and adds only the request path's names, in order |
| Server.RejectedNeverOpens | src/quinn-server.rs:154-193 | a rejected request never reaches the open: its outcome is the same whatever the filesystem holds |
| Server.NotFoundAnswer | src/quinn-server.rs:193-207 | a path that does not open gets exactly `HTTP/3 404 NotFound\r\n` |
| Server.ServedAnswer | src/quinn-server.rs:210-223 | a served file's answer is a prefix of the file, `chunks` full chunks long, short of it by less than a chunk |
| Server.RouteResolved | src/quinn-server.rs:176-209 | once the request parses and resolves, the outcome depends only on whether the resolved path opens |
| Server.RouteChunks | src/quinn-server.rs:214-217 | the chunk counter of a served outcome is the file length divided by the chunk size |
| Server.FullChunksLength | src/quinn-server.rs:210-223 | the bytes sent are the whole number of chunks that fit |
| Server.WholeChunksSentEntire | src/quinn-server.rs:210-223 | a file whose length is a multiple of 100 KiB is sent entire |
| Server.PartialChunkDropped | src/quinn-server.rs:215-223 | a trailing partial chunk is never sent, and a file under 100 KiB yields nothing |
| Client.RequestLine | src/quinn-client.rs:43 | the line is `GET `, the path, ` HTTP/3` and `\r\n`, `|path| + 13` bytes long, and passes both server marker checks |
| Client.InnerOfRequestLine | src/quinn-client.rs:43 | between the markers the server sees the path followed by ` HTTP/3` |
| Client.ServerReadsUpToSpace | src/quinn-server.rs:173-175 | for any path, the server recovers the part before its first space, or panics on it when that part is not UTF-8 |
| Client.RequestLineRoundTrip | src/quinn-server.rs:173-175 | a valid UTF-8 path without spaces comes back unchanged |
| Client.ClientRequestAnswered | src/quinn-server.rs:150-232 | a client request for a space-free path is answered, not panicked on, exactly when the path is absolute without `..`; the answer is then the resolved file's full chunks or the not-found line |
| Client.ATxtResolves | src/quinn-server.rs:176-192 | `/a.txt` under `/srv` resolves to `/srv/a.txt` |
| Client.SmallFileSendsNothing | src/quinn-server.rs:210-223 | requesting a five-byte file opens it and sends nothing |
| Client.TraversalRejected | src/quinn-server.rs:183-190 | requesting `/../etc/passwd` panics on the `..` component |

## Left out

- Reading the request (`read_to_end`, line 155) is a parameter: the bytes the client sent. A read error is not modelled. Only the size cap is modelled, and it becomes `Panicked(RequestTooLong)`.
- A failed file read other than running out of content (an I/O error such as `EIO`, or a file that shrinks while it is read) is not modelled: `FileReader.ReadExact` fails only at the end of the content. In the code any `Err` from `read_exact` ends the loop at line 215, and the stream is then finished at lines 226-230 as though the transfer were complete, so the client receives a truncated file it cannot tell from a whole one.
- Transport errors in `write_all`, `write` and `finish` (connection reset, stream stopped) are not modelled. Every call succeeds.
- Transport.SendStream.Write: always takes the whole slice. `write` may legally take fewer bytes, and the handler ignores its count. The model therefore assumes full writes.
- What quinn does with a stream dropped by a panicking task is not modelled. A panic leaves the model's stream untouched and unfinished.
- `File::open` is a lookup in a map of paths that open. Operating-system path handling is not modelled: symbolic links, permissions, and what the kernel makes of a path.
- The ASCII-escape logging loop (lines 159-164) and the `println!` output (lines 164, 196, 216, 231) only log, and are left out.
- `main` (lines 45-121) and `handle_connection` (lines 123-148) of the server are left out. They hold TLS and certificate setup, the accept loop and task spawning, which are configuration, I/O and concurrency.
- `src/qp2p.rs` is not part of this model. It is a peer broadcaster made of network I/O and shared mutable state.
- The client beyond line 43 (address resolution, connection, reading the reply, `Instant` timing and the floating-point throughput report) is I/O and floating point, and is left out.
- `url.path()` is a parameter, and its percent-encoding by the `url` crate is not modelled. `Client.RequestLine`, `Client.InnerOfRequestLine` and `Client.ServerReadsUpToSpace` hold for any path bytes, spaces and non-ASCII included. `Client.RequestLineRoundTrip` and `Client.ClientRequestAnswered` require a valid UTF-8 path without spaces; every path the real client sends meets that, because `url.path()` is a `&str` with spaces percent-encoded.
- Windows path prefixes and separators are not modelled. Only Unix `Path::components` is.
- Concurrency between streams is not modelled. Each request is handled on its own.
