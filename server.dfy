// `handle_request` of the file server: parse one request line, resolve its
// path under the served root, and answer with the file's bytes in 100 KiB
// chunks or with a not-found line.

module Server {
  import opened Bytes
  import opened Utf8
  import opened StdPath
  import opened Transport

  /** Each panic the model can reach on the way to the response. */
  datatype Failure =
    | RequestTooLong                 // `read_to_end` over its size limit
    | MissingGet                     // "missing GET"
    | MissingCrlf                    // "missing \r\n"
    | InvalidUtf8                    // `str::from_utf8(..).unwrap()`
    | NotAbsolute                    // "path must be absolute"
    | IllegalComponent(c: Component) // "illegal component in path"

  datatype Result<T> = Ok(value: T) | Err(error: Failure)

  /** What became of one request: the handler panicked, or it tried to open
      `path` and answered not-found, or it streamed `chunks` full chunks. */
  datatype Outcome =
    | Panicked(failure: Failure)
    | NotFound(path: seq<byte>)
    | Served(path: seq<byte>, chunks: nat)

  /** The size limit passed to `read_to_end`. */
  const MAX_REQUEST: nat := 64 * 1024
  /** The size of the response buffer `buf`. */
  const CHUNK: nat := 1024 * 100

  const GET: seq<byte> := [0x47, 0x45, 0x54, 0x20]  // "GET "
  const CRLF: seq<byte> := [CR, LF]                 // "\r\n"
  /** "HTTP/3 404 NotFound\r\n" */
  const NOT_FOUND: seq<byte> :=
    [0x48, 0x54, 0x54, 0x50, 0x2F, 0x33, 0x20, 0x34, 0x30, 0x34, 0x20,
     0x4E, 0x6F, 0x74, 0x46, 0x6F, 0x75, 0x6E, 0x64, CR, LF]

  // ---------------------------------------------------------------------
  // The request line

  predicate StartsWithGet(req: seq<byte>)
  {
    |req| >= 4 && req[..4] == GET
  }

  /** Passes both marker checks: `GET ` in front, at least two more bytes,
      and `\r\n` as the last two. */
  predicate Framed(req: seq<byte>)
  {
    StartsWithGet(req) && |req| >= 6 && req[|req| - 2..] == CRLF
  }

  /** The bytes strictly between `GET ` and the final `\r\n`. */
  function Inner(req: seq<byte>): seq<byte>
    requires Framed(req)
  {
    req[4..|req| - 2]
  }

  /** `p` is the longest prefix of `x` that holds no space. */
  predicate IsCutAtSpace(p: seq<byte>, x: seq<byte>)
  {
    p <= x && SPACE !in p && (|p| < |x| ==> x[|p|] == SPACE)
  }

  /** The request parser: the two marker checks, the cut at the first
      space, and the UTF-8 check on what is left. */
  function ParseRequest(req: seq<byte>): (r: Result<seq<byte>>)
    ensures r == Err(MissingGet) <==> !StartsWithGet(req)
    ensures r == Err(MissingCrlf) <==> StartsWithGet(req) && !Framed(req)
    ensures r.Ok? ==> Framed(req) && ValidUtf8(r.value) && IsCutAtSpace(r.value, Inner(req))
    ensures r.Err? ==> r.error in {MissingGet, MissingCrlf, InvalidUtf8}
  {
    if |req| < 4 || req[0..4] != GET then Err(MissingGet)
    else if |req[4..]| < 2 || req[|req| - 2..] != CRLF then Err(MissingCrlf)
    else
      var x := req[4..|req| - 2];
      var end := FirstIndex(x, SPACE);
      if ValidUtf8(x[..end]) then Ok(x[..end]) else Err(InvalidUtf8)
  }

  /** The parser accepts exactly the framed requests whose cut path is valid
      UTF-8, and returns that cut. */
  lemma ParseRequestExact(req: seq<byte>, p: seq<byte>)
    ensures ParseRequest(req) == Ok(p) <==>
      Framed(req) && ValidUtf8(p) && IsCutAtSpace(p, Inner(req))
  {
    if Framed(req) && IsCutAtSpace(p, Inner(req)) {
      var x := Inner(req);
      FirstIndexUnique(x, SPACE, |p|);
      assert x[..|p|] == p;
    }
  }

  /** Every accepted request has at least six bytes, and the prefix and the
      terminator do not overlap. */
  lemma AcceptedRequestShape(req: seq<byte>)
    requires ParseRequest(req).Ok?
    ensures |req| >= 6 && req[..4] == GET && req[|req| - 2..] == CRLF
    ensures |ParseRequest(req).value| <= |req| - 6
  {
  }

  /** Cutting valid UTF-8 at its first space never yields invalid UTF-8:
      a framed request whose inner bytes are valid UTF-8 is accepted. */
  lemma ValidInnerAccepted(req: seq<byte>)
    requires Framed(req) && ValidUtf8(Inner(req))
    ensures ParseRequest(req) == Ok(Inner(req)[..FirstIndex(Inner(req), SPACE)])
  {
    var x := Inner(req);
    PrefixBeforeAscii(x, FirstIndex(x, SPACE));
  }

  // ---------------------------------------------------------------------
  // Path resolution

  /** Pushes every component onto `buf` in order, failing at the first one
      that is not a normal name. */
  function PushAll(buf: seq<byte>, cs: seq<Component>): (r: Result<seq<byte>>)
    decreases |cs|
  {
    if cs == [] then Ok(buf)
    else match cs[0]
      case Normal(x) => PushAll(Push(buf, x), cs[1..])
      case _ => Err(IllegalComponent(cs[0]))
  }

  /** The path the handler will open for a request path, or why it panics:
      the first component must be the root, and each later one a name. */
  function Resolution(root: seq<byte>, path: seq<byte>): Result<seq<byte>>
  {
    var cs := Components(path);
    if |cs| == 0 || cs[0] != RootDir then Err(NotAbsolute)
    else PushAll(root, cs[1..])
  }

  /** The resolution loop: a copy of the root, with each normal component
      of the path pushed onto it in turn. */
  method ResolvePath(root: seq<byte>, path: seq<byte>) returns (r: Result<seq<byte>>)
    ensures r == Resolution(root, path)
  {
    var cs := Components(path);
    if |cs| == 0 || cs[0] != RootDir {
      return Err(NotAbsolute);
    }
    var realPath := root;
    var j := 1;
    while j < |cs|
      invariant 1 <= j <= |cs|
      invariant PushAll(root, cs[1..]) == PushAll(realPath, cs[j..])
    {
      assert cs[j..][1..] == cs[j + 1..];
      match cs[j] {
        case Normal(x) =>
          realPath := Push(realPath, x);
        case _ =>
          return Err(IllegalComponent(cs[j]));
      }
      j := j + 1;
    }
    return Ok(realPath);
  }

  /** PushAll succeeds exactly when every component is a name. */
  lemma {:induction false} PushAllSucceeds(buf: seq<byte>, cs: seq<Component>)
    ensures PushAll(buf, cs).Ok? <==> forall j :: 0 <= j < |cs| ==> cs[j].Normal?
    ensures PushAll(buf, cs).Err? ==>
      exists j :: 0 <= j < |cs| && !cs[j].Normal? && PushAll(buf, cs).error == IllegalComponent(cs[j])
    decreases |cs|
  {
    if cs != [] && cs[0].Normal? {
      PushAllSucceeds(Push(buf, cs[0].name), cs[1..]);
      assert forall j :: 1 <= j < |cs| ==> cs[j] == cs[1..][j - 1];
      if PushAll(buf, cs).Err? {
        var k :| 0 <= k < |cs[1..]| && !cs[1..][k].Normal? && PushAll(buf, cs).error == IllegalComponent(cs[1..][k]);
        assert cs[k + 1] == cs[1..][k];
      }
    }
  }

  /** Pushing only ever extends the buffer. */
  lemma {:induction false} PushAllExtends(buf: seq<byte>, cs: seq<Component>)
    requires PushAll(buf, cs).Ok?
    ensures buf <= PushAll(buf, cs).value
    decreases |cs|
  {
    if cs != [] {
      var mid := Push(buf, cs[0].name);
      PushAllExtends(mid, cs[1..]);
      PushExtends(buf, cs[0].name);
    }
  }

  /** Pushing names adds exactly those names as components. */
  lemma {:induction false} PushAllComponents(buf: seq<byte>, cs: seq<Component>)
    requires forall j :: 0 <= j < |cs| ==> IsSegment(cs[j])
    requires PushAll(buf, cs).Ok?
    ensures Components(PushAll(buf, cs).value) == Components(buf) + cs
    decreases |cs|
  {
    if cs != [] {
      var x := cs[0].name;
      var rest := cs[1..];
      assert cs == [Normal(x)] + rest && IsNormalName(x);
      assert forall j :: 0 <= j < |rest| ==> IsSegment(rest[j]) by {
        assert forall j :: 0 <= j < |rest| ==> rest[j] == cs[j + 1];
      }
      PushAllComponents(Push(buf, x), rest);
      PushAllStep(buf, x, rest);
    }
  }

  /** The step of PushAllComponents: the first name pushed, then the rest. */
  lemma PushAllStep(buf: seq<byte>, x: seq<byte>, rest: seq<Component>)
    requires IsNormalName(x)
    requires PushAll(Push(buf, x), rest).Ok?
    requires Components(PushAll(Push(buf, x), rest).value) == Components(Push(buf, x)) + rest
    ensures PushAll(buf, [Normal(x)] + rest).Ok?
    ensures Components(PushAll(buf, [Normal(x)] + rest).value) == Components(buf) + ([Normal(x)] + rest)
  {
    var cs := [Normal(x)] + rest;
    assert cs[1..] == rest;
    assert PushAll(buf, cs) == PushAll(Push(buf, x), rest);
    PushComponents(buf, x);
    AppendAssoc(Components(buf), [Normal(x)], rest);
  }

  /** A request path is resolved exactly when it starts with `/` and has no
      `..` component at any depth. */
  lemma ResolutionAccepts(root: seq<byte>, path: seq<byte>)
    ensures Resolution(root, path).Ok? <==>
      |path| > 0 && path[0] == SLASH && ParentDir !in Components(path)
  {
    var cs := Components(path);
    if |cs| > 0 && cs[0] == RootDir {
      PushAllSucceeds(root, cs[1..]);
      ComponentsAfterFirst(path);
      if ParentDir in cs {
        var k :| 0 <= k < |cs| && cs[k] == ParentDir;
        assert cs[1..][k - 1] == cs[k];
      } else {
        forall j | 0 <= j < |cs[1..]| ensures cs[1..][j].Normal? {
          assert cs[1..][j] == cs[j + 1];
        }
      }
    }
  }

  /** Why a resolution fails: the path is relative (this includes the empty
      path), or a later component is `..`. */
  lemma ResolutionFailures(root: seq<byte>, path: seq<byte>)
    requires Resolution(root, path).Err?
    ensures Resolution(root, path).error == NotAbsolute <==> !(|path| > 0 && path[0] == SLASH)
    ensures Resolution(root, path).error in {NotAbsolute, IllegalComponent(ParentDir)}
  {
    var cs := Components(path);
    if |cs| > 0 && cs[0] == RootDir {
      PushAllSucceeds(root, cs[1..]);
      ComponentsAfterFirst(path);
      var j :| 0 <= j < |cs[1..]| && !cs[1..][j].Normal? &&
        Resolution(root, path).error == IllegalComponent(cs[1..][j]);
      assert cs[1..][j] == cs[j + 1];
    }
  }

  /** A resolved path is the served root followed by the request path's
      names in their original order: it extends the root, and nothing after
      the root's own components is anything but a name. */
  lemma ResolutionStaysUnderRoot(root: seq<byte>, path: seq<byte>)
    requires Resolution(root, path).Ok?
    ensures root <= Resolution(root, path).value
    ensures Components(Resolution(root, path).value) == Components(root) + Components(path)[1..]
    ensures forall j :: |Components(root)| <= j < |Components(Resolution(root, path).value)| ==>
      Components(Resolution(root, path).value)[j].Normal?
  {
    var cs := Components(path);
    ComponentsAfterFirst(path);
    assert forall j :: 0 <= j < |cs[1..]| ==> cs[1..][j] == cs[j + 1];
    PushAllComponents(root, cs[1..]);
    PushAllExtends(root, cs[1..]);
    PushAllSucceeds(root, cs[1..]);
  }

  // ---------------------------------------------------------------------
  // The response

  /** What the copy loop sends of `data`: every full chunk and nothing of a
      trailing partial one. */
  function FullChunks(data: seq<byte>): (r: seq<byte>)
    ensures r <= data
    ensures |r| % CHUNK == 0
    ensures |data| - |r| < CHUNK
  {
    data[..|data| / CHUNK * CHUNK]
  }

  /** The whole exchange for one stream, as a function of the bytes the
      client sent, the served root and the files that open. */
  function Route(root: seq<byte>, incoming: seq<byte>, fs: map<seq<byte>, Entry>): (o: Outcome)
    ensures o.Served? ==> o.path in fs
    ensures o.NotFound? ==> o.path !in fs
  {
    if |incoming| > MAX_REQUEST then Panicked(RequestTooLong)
    else match ParseRequest(incoming)
      case Err(e) => Panicked(e)
      case Ok(p) =>
        match Resolution(root, p)
        case Err(e) => Panicked(e)
        case Ok(realPath) =>
          if realPath in fs then Served(realPath, |Readable(fs[realPath])| / CHUNK)
          else NotFound(realPath)
  }

  /** The bytes written to the stream for an outcome. */
  function Output(o: Outcome, fs: map<seq<byte>, Entry>): seq<byte>
    requires o.Served? ==> o.path in fs
  {
    match o
    case Panicked(_) => []
    case NotFound(_) => NOT_FOUND
    case Served(path, _) => FullChunks(Readable(fs[path]))
  }

  /** `handle_request` after the request has been read: `incoming` is what
      the client sent, `fs` says which paths open and to what. A panic leaves
      the stream untouched; otherwise the stream is finished exactly once,
      after the not-found line or after the last full chunk. */
  method HandleRequest(root: seq<byte>, incoming: seq<byte>, fs: map<seq<byte>, Entry>,
                       stream: SendStream) returns (o: Outcome)
    requires !stream.finished
    modifies stream
    ensures o == Route(root, incoming, fs)
    ensures stream.sent == old(stream.sent) + Output(o, fs)
    ensures stream.finished <==> !o.Panicked?
  {
    if |incoming| > MAX_REQUEST {
      return Panicked(RequestTooLong);
    }
    var parsed := ParseRequest(incoming);
    if parsed.Err? {
      return Panicked(parsed.error);
    }
    var resolved := ResolvePath(root, parsed.value);
    if resolved.Err? {
      return Panicked(resolved.error);
    }
    var realPath := resolved.value;
    if realPath !in fs {
      stream.WriteAll(NOT_FOUND);
      stream.Finish();
      return NotFound(realPath);
    }
    var chunks := CopyChunks(fs[realPath], stream);
    stream.Finish();
    return Served(realPath, chunks);
  }

  /** The copy loop: `read_exact` into the 100 KiB buffer until it fails,
      writing each filled buffer to the stream. Returns the counter `i`. */
  method CopyChunks(e: Entry, stream: SendStream) returns (i: nat)
    requires !stream.finished
    modifies stream
    ensures i == |Readable(e)| / CHUNK
    ensures stream.sent == old(stream.sent) + FullChunks(Readable(e)) && !stream.finished
  {
    var content := Readable(e);
    var buf := new byte[CHUNK](_ => 0);
    var reader := new FileReader(e);
    i := 0;
    ghost var offset := 0;  // i * CHUNK, kept apart to stay linear
    var ok := reader.ReadExact(buf);
    while ok
      invariant reader.Valid() && reader.content == content && buf.Length == CHUNK
      invariant offset == i * CHUNK && offset <= |content|
      invariant ok ==> reader.pos == offset + CHUNK && buf[..] == content[offset..offset + CHUNK]
      invariant !ok ==> |content| < offset + CHUNK
      invariant stream.sent == old(stream.sent) + content[..offset] && !stream.finished
      decreases |content| - offset
    {
      SliceJoin(content, offset, offset + CHUNK);
      i := i + 1;
      offset := offset + CHUNK;
      var written := stream.Write(buf[..]);  // the count is not looked at
      ok := reader.ReadExact(buf);
    }
    ChunkCount(|content|, i);
  }

  /** Two adjacent slices of a prefix make the longer prefix. */
  lemma SliceJoin(s: seq<byte>, m: nat, n: nat)
    requires m <= n <= |s|
    ensures s[..n] == s[..m] + s[m..n]
  {
  }

  /** `i` full chunks fit and `i + 1` do not: `i` is the chunk count. */
  lemma ChunkCount(n: nat, i: nat)
    requires i * CHUNK <= n < (i + 1) * CHUNK
    ensures n / CHUNK == i
  {
  }

  // ---------------------------------------------------------------------
  // Properties of the exchange

  /** The handler panics exactly when the request is over the size limit,
      fails to parse, or names a path that is relative or holds `..`. */
  lemma RoutePanics(root: seq<byte>, incoming: seq<byte>, fs: map<seq<byte>, Entry>)
    ensures Route(root, incoming, fs).Panicked? <==>
      |incoming| > MAX_REQUEST || ParseRequest(incoming).Err? ||
      var p := ParseRequest(incoming).value;
      !(|p| > 0 && p[0] == SLASH && ParentDir !in Components(p))
  {
    if |incoming| <= MAX_REQUEST && ParseRequest(incoming).Ok? {
      ResolutionAccepts(root, ParseRequest(incoming).value);
    }
  }

  /** Whatever the handler opens lies under the served root: the opened
      path extends the root and adds only the request path's names, in
      order. */
  lemma RouteOpensUnderRoot(root: seq<byte>, incoming: seq<byte>, fs: map<seq<byte>, Entry>)
    requires !Route(root, incoming, fs).Panicked?
    ensures ParseRequest(incoming).Ok?
    ensures var target := Route(root, incoming, fs).path;
      root <= target &&
      Components(target) == Components(root) + Components(ParseRequest(incoming).value)[1..] &&
      forall j :: |Components(root)| <= j < |Components(target)| ==> Components(target)[j].Normal?
  {
    ResolutionStaysUnderRoot(root, ParseRequest(incoming).value);
  }

  /** A rejected request never reaches the open: its outcome is the same
      whatever the filesystem holds. */
  lemma RejectedNeverOpens(root: seq<byte>, incoming: seq<byte>,
                                              fs: map<seq<byte>, Entry>, fs2: map<seq<byte>, Entry>)
    requires Route(root, incoming, fs).Panicked?
    ensures Route(root, incoming, fs2) == Route(root, incoming, fs)
  {
  }

  /** A path that does not open gets the not-found line and nothing else. */
  lemma NotFoundAnswer(root: seq<byte>, incoming: seq<byte>, fs: map<seq<byte>, Entry>)
    requires Route(root, incoming, fs).NotFound?
    ensures Route(root, incoming, fs).path !in fs
    ensures Output(Route(root, incoming, fs), fs) == NOT_FOUND
  {
  }

  /** A served file is sent as its first `chunks` full chunks: a prefix of
      the file, a whole number of chunks long, short of the file by less
      than one chunk. */
  lemma ServedAnswer(root: seq<byte>, incoming: seq<byte>, fs: map<seq<byte>, Entry>)
    requires Route(root, incoming, fs).Served?
    ensures var o := Route(root, incoming, fs);
      var content := Readable(fs[o.path]);
      Output(o, fs) <= content &&
      |Output(o, fs)| == o.chunks * CHUNK &&
      |content| - |Output(o, fs)| < CHUNK
  {
    var o := Route(root, incoming, fs);
    RouteChunks(root, incoming, fs);
    FullChunksLength(Readable(fs[o.path]));
  }

  /** Route once the request has parsed to `p` and `p` has resolved. */
  lemma RouteResolved(root: seq<byte>, incoming: seq<byte>, fs: map<seq<byte>, Entry>,
                                          p: seq<byte>, target: seq<byte>)
    requires |incoming| <= MAX_REQUEST
    requires ParseRequest(incoming) == Ok(p) && Resolution(root, p) == Ok(target)
    ensures Route(root, incoming, fs) ==
      if target in fs then Served(target, |Readable(fs[target])| / CHUNK) else NotFound(target)
  {
  }

  /** The chunk count of a served outcome is that of the opened file. */
  lemma RouteChunks(root: seq<byte>, incoming: seq<byte>, fs: map<seq<byte>, Entry>)
    requires Route(root, incoming, fs).Served?
    ensures var o := Route(root, incoming, fs);
      o.chunks == |Readable(fs[o.path])| / CHUNK
  {
    var p := ParseRequest(incoming).value;
    assert Route(root, incoming, fs) == Served(Resolution(root, p).value, |Readable(fs[Resolution(root, p).value])| / CHUNK);
  }

  /** FullChunks keeps as many whole chunks as fit. */
  lemma FullChunksLength(data: seq<byte>)
    ensures |FullChunks(data)| == |data| / CHUNK * CHUNK
  {
  }

  /** A file whose size is a whole number of chunks is sent entire. */
  lemma WholeChunksSentEntire(data: seq<byte>)
    requires |data| % CHUNK == 0
    ensures FullChunks(data) == data
  {
    assert |data| / CHUNK * CHUNK == |data|;
  }

  /** A trailing partial chunk is never sent: a file of fewer than 100 KiB
      yields no bytes at all, and one byte past a chunk boundary is lost. */
  lemma PartialChunkDropped(data: seq<byte>)
    requires |data| % CHUNK != 0
    ensures |FullChunks(data)| < |data|
    ensures |data| < CHUNK ==> FullChunks(data) == []
  {
  }
}
