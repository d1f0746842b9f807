// The client's request line, `format!("GET {} HTTP/3\r\n", url.path())`,
// and what the server makes of it.

module Client {
  import opened Bytes
  import opened Utf8
  import opened StdPath
  import opened Transport
  import opened Server

  /** " HTTP/3\r\n" */
  const HTTP3_TAIL: seq<byte> := [SPACE, 0x48, 0x54, 0x54, 0x50, 0x2F, 0x33, CR, LF]

  /** The request line the client sends for a URL path. It passes both of
      the server's marker checks whatever the path. */
  function RequestLine(path: seq<byte>): (r: seq<byte>)
    ensures |r| == |path| + 13
    ensures r[..4] == GET && r[4..4 + |path|] == path && r[4 + |path|..] == HTTP3_TAIL
    ensures r[|r| - 2..] == CRLF
    ensures Framed(r)
  {
    GET + path + HTTP3_TAIL
  }

  /** Between the markers the server sees the path, a space and `HTTP/3`. */
  lemma InnerOfRequestLine(path: seq<byte>)
    ensures Inner(RequestLine(path)) == path + HTTP3_TAIL[..7]
  {
    var r := RequestLine(path);
    assert r == GET + (path + HTTP3_TAIL[..7]) + CRLF;
  }

  /** For any path the server recovers the part before its first space,
      or panics on it when that part is not UTF-8: the ` HTTP/3` token is
      cut off rather than rejected. */
  lemma ServerReadsUpToSpace(path: seq<byte>)
    ensures var cut := path[..FirstIndex(path, SPACE)];
      ParseRequest(RequestLine(path)) == if ValidUtf8(cut) then Ok(cut) else Err(InvalidUtf8)
  {
    var k := FirstIndex(path, SPACE);
    var tail := HTTP3_TAIL[..7];
    var x := path + tail;
    InnerOfRequestLine(path);
    FirstIndexConcat(path, tail, SPACE);
    assert FirstIndex(tail, SPACE) == 0;
    assert FirstIndex(x, SPACE) == k;
    assert x[..k] == path[..k];
  }

  /** Round trip: a valid UTF-8 path with no space comes back unchanged. */
  lemma RequestLineRoundTrip(path: seq<byte>)
    requires ValidUtf8(path) && SPACE !in path
    ensures ParseRequest(RequestLine(path)) == Ok(path)
  {
    ServerReadsUpToSpace(path);
    FirstIndexFinds(path, SPACE);
    assert path[..|path|] == path;
  }

  /** End to end: a client request for an absolute, space-free path is
      answered from the resolved file, or with the not-found line, exactly
      when the path holds no `..`; otherwise the handler panics. */
  lemma ClientRequestAnswered(root: seq<byte>, path: seq<byte>, fs: map<seq<byte>, Entry>)
    requires ValidUtf8(path) && SPACE !in path
    requires |path| + 13 <= MAX_REQUEST
    ensures var o := Route(root, RequestLine(path), fs);
      !o.Panicked? <==> |path| > 0 && path[0] == SLASH && ParentDir !in Components(path)
    ensures var o := Route(root, RequestLine(path), fs);
      !o.Panicked? ==>
        Resolution(root, path) == Ok(o.path) &&
        Output(o, fs) == (if o.path in fs then FullChunks(Readable(fs[o.path])) else NOT_FOUND)
  {
    RequestLineRoundTrip(path);
    RoutePanics(root, RequestLine(path), fs);
  }

  // ---------------------------------------------------------------------
  // The serving scenario: root `/srv` holding `a.txt` with "hello"

  const SRV: seq<byte> := [SLASH, 0x73, 0x72, 0x76]                       // "/srv"
  const A_TXT: seq<byte> := [0x61, DOT, 0x74, 0x78, 0x74]                 // "a.txt"
  const HELLO: seq<byte> := [0x68, 0x65, 0x6C, 0x6C, 0x6F]                // "hello"
  const ETC_PASSWD: seq<byte> := [0x65, 0x74, 0x63, SLASH, 0x70, 0x61, 0x73, 0x73, 0x77, 0x64] // "etc/passwd"

  /** `/a.txt` resolves to `/srv/a.txt`. */
  lemma ATxtResolves()
    ensures Resolution(SRV, [SLASH] + A_TXT) == Ok(SRV + [SLASH] + A_TXT)
  {
    var path := [SLASH] + A_TXT;
    var target := SRV + [SLASH] + A_TXT;
    assert Components(path) == [RootDir, Normal(A_TXT)] by {
      assert path[1..] == A_TXT;
      SegmentsOfPiece(A_TXT);
    }
    assert Push(SRV, A_TXT) == target;
    assert PushAll(SRV, [Normal(A_TXT)]) == PushAll(target, []);
  }

  /** Requesting `/a.txt` opens `/srv/a.txt` and sends nothing: the five
      bytes are a trailing partial chunk. */
  lemma SmallFileSendsNothing()
    ensures var fs := map[SRV + [SLASH] + A_TXT := File(HELLO)];
      var o := Route(SRV, RequestLine([SLASH] + A_TXT), fs);
      o == Served(SRV + [SLASH] + A_TXT, 0) && Output(o, fs) == []
  {
    var path := [SLASH] + A_TXT;
    var fs := map[SRV + [SLASH] + A_TXT := File(HELLO)];
    var target := SRV + [SLASH] + A_TXT;
    assert ParseRequest(RequestLine(path)) == Ok(path) by {
      AsciiIsUtf8(path);
      RequestLineRoundTrip(path);
    }
    ATxtResolves();
    RouteResolved(SRV, RequestLine(path), fs, path, target);
    assert fs[target] == File(HELLO);
    PartialChunkDropped(HELLO);
  }

  /** Requesting `/../etc/passwd` panics on the `..` component before any
      file is opened. */
  lemma TraversalRejected(fs: map<seq<byte>, Entry>)
    ensures Route(SRV, RequestLine([SLASH, DOT, DOT, SLASH] + ETC_PASSWD), fs) ==
      Panicked(IllegalComponent(ParentDir))
  {
    var path := [SLASH, DOT, DOT, SLASH] + ETC_PASSWD;
    assert ParseRequest(RequestLine(path)) == Ok(path) by {
      AsciiIsUtf8(path);
      RequestLineRoundTrip(path);
    }
    assert Resolution(SRV, path) == Err(IllegalComponent(ParentDir)) by {
      assert ParentDir in Components(path) by {
        assert path[1..] == [DOT, DOT] + [SLASH] + ETC_PASSWD;
        SegmentsJoin([DOT, DOT], ETC_PASSWD);
        SegmentsOfPiece([DOT, DOT]);
        assert Components(path)[1] == ParentDir;
      }
      ResolutionAccepts(SRV, path);
      ResolutionFailures(SRV, path);
    }
  }
}
