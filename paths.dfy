// The Unix behaviour of Rust's `Path::components` and `PathBuf::push`, the
// two library operations the server's path resolution is built from.

module StdPath {
  import opened Bytes

  /** `std::path::Component` without the Windows `Prefix` variant. */
  datatype Component = RootDir | CurDir | ParentDir | Normal(name: seq<byte>)

  /** A name `Components` can yield as `Normal`: non-empty, no separator,
      and neither `.` nor `..`. */
  predicate IsNormalName(x: seq<byte>)
  {
    |x| > 0 && SLASH !in x && x != [DOT] && x != [DOT, DOT]
  }

  /** What can follow the first component: a parent reference or a name. */
  predicate IsSegment(c: Component)
  {
    c == ParentDir || (c.Normal? && IsNormalName(c.name))
  }

  /** The component (if any) one slash-free piece of a path stands for:
      empty pieces and `.` are skipped. */
  function PieceComponents(piece: seq<byte>): (r: seq<Component>)
    ensures |r| <= 1
    ensures r == [] <==> piece == [] || piece == [DOT]
    ensures r != [] ==> (r[0] == ParentDir <==> piece == [DOT, DOT])
    ensures r != [] && SLASH !in piece ==> IsSegment(r[0])
    ensures r != [] ==> r[0] != RootDir && r[0] != CurDir
  {
    if piece == [] || piece == [DOT] then []
    else if piece == [DOT, DOT] then [ParentDir]
    else [Normal(piece)]
  }

  /** The pieces of a path text between separators, in order:
      `s.split('/')`. There is always at least one piece. */
  function Pieces(s: seq<byte>): (r: seq<seq<byte>>)
    ensures |r| > 0
  {
    if s == [] then [[]]
    else
      var rest := Pieces(s[1..]);
      if s[0] == SLASH then [[]] + rest else [[s[0]] + rest[0]] + rest[1..]
  }

  /** The components a list of slash-free pieces stands for. */
  function PiecesComponents(ps: seq<seq<byte>>): (r: seq<Component>)
    ensures r != [] ==> r[0] != RootDir && r[0] != CurDir
  {
    if ps == [] then [] else PieceComponents(ps[0]) + PiecesComponents(ps[1..])
  }

  /** The components of a path text with no root and no leading `.`
      handling: split at every `/`, pieces taken in order. */
  function Segments(s: seq<byte>): (r: seq<Component>)
    ensures r != [] ==> r[0] != RootDir && r[0] != CurDir
  {
    PiecesComponents(Pieces(s))
  }

  /** `Path::components` on Unix: a leading `/` gives `RootDir`; a relative
      path that starts with the piece `.` gives `CurDir`; the rest is split
      at separators, with empty pieces and interior `.` pieces dropped. */
  function Components(p: seq<byte>): (r: seq<Component>)
    ensures |r| > 0 && r[0] == RootDir <==> |p| > 0 && p[0] == SLASH
  {
    if |p| > 0 && p[0] == SLASH then [RootDir] + Segments(p[1..])
    else if p == [DOT] || (|p| >= 2 && p[0] == DOT && p[1] == SLASH) then [CurDir] + Segments(p[1..])
    else Segments(p)
  }

  /** `PathBuf::push` of a relative path on Unix: a separator is inserted
      unless the buffer is empty or already ends with one. */
  function Push(buf: seq<byte>, x: seq<byte>): seq<byte>
  {
    if |buf| > 0 && buf[|buf| - 1] != SLASH then buf + [SLASH] + x else buf + x
  }

  /** No piece holds a separator. */
  lemma {:induction false} PiecesSlashFree(s: seq<byte>)
    ensures forall k :: 0 <= k < |Pieces(s)| ==> SLASH !in Pieces(s)[k]
  {
    if s != [] {
      var rest := Pieces(s[1..]);
      PiecesSlashFree(s[1..]);
      if s[0] != SLASH {
        assert SLASH !in rest[0];
        assert forall k :: 1 <= k < |Pieces(s)| ==> Pieces(s)[k] == rest[k];
      } else {
        assert forall k :: 1 <= k < |Pieces(s)| ==> Pieces(s)[k] == rest[k - 1];
      }
    }
  }

  /** Slash-free pieces stand for parent references and names only. */
  lemma {:induction false} PiecesComponentsSegments(ps: seq<seq<byte>>)
    requires forall k :: 0 <= k < |ps| ==> SLASH !in ps[k]
    ensures forall j :: 0 <= j < |PiecesComponents(ps)| ==> IsSegment(PiecesComponents(ps)[j])
  {
    if ps != [] {
      assert SLASH !in ps[0];
      assert forall k :: 0 <= k < |ps[1..]| ==> ps[1..][k] == ps[k + 1];
      PiecesComponentsSegments(ps[1..]);
    }
  }

  /** After the first, every component is a parent reference or a name. */
  lemma ComponentsAfterFirst(p: seq<byte>)
    ensures forall j :: 1 <= j < |Components(p)| ==> IsSegment(Components(p)[j])
  {
    var s := if |p| > 0 && (p[0] == SLASH || p == [DOT] || (|p| >= 2 && p[0] == DOT && p[1] == SLASH)) then p[1..] else p;
    PiecesSlashFree(s);
    PiecesComponentsSegments(Pieces(s));
  }

  /** Pushing keeps the buffer as a prefix and puts `x` at the end. */
  lemma PushExtends(buf: seq<byte>, x: seq<byte>)
    ensures buf <= Push(buf, x)
    ensures |x| <= |Push(buf, x)| && Push(buf, x)[|Push(buf, x)| - |x|..] == x
  {
    if |buf| > 0 && buf[|buf| - 1] != SLASH {
      assert Push(buf, x) == buf + ([SLASH] + x);
    }
  }

  /** A slash-free text is one piece. */
  lemma {:induction false} PiecesOfPiece(x: seq<byte>)
    requires SLASH !in x
    ensures Pieces(x) == [x]
  {
    if x != [] {
      PiecesOfPiece(x[1..]);
      assert [x[0]] + x[1..] == x;
    }
  }

  lemma SegmentsOfPiece(x: seq<byte>)
    requires SLASH !in x
    ensures Segments(x) == PieceComponents(x)
  {
    PiecesOfPiece(x);
    assert PiecesComponents([x]) == PieceComponents(x) + PiecesComponents([]);
  }

  /** A separator splits the pieces. */
  lemma {:induction false} PiecesJoin(s: seq<byte>, t: seq<byte>)
    ensures Pieces(s + [SLASH] + t) == Pieces(s) + Pieces(t)
  {
    var u := s + [SLASH] + t;
    if s == [] {
      assert u[1..] == t;
    } else {
      assert u[1..] == s[1..] + [SLASH] + t;
      PiecesJoin(s[1..], t);
      if s[0] != SLASH {
        PiecesJoinNamed(s, t);
      }
    }
  }

  /** The step of PiecesJoin where `s` starts with a name byte: that byte
      joins the first piece on both sides. */
  lemma PiecesJoinNamed(s: seq<byte>, t: seq<byte>)
    requires s != [] && s[0] != SLASH
    requires Pieces(s[1..] + [SLASH] + t) == Pieces(s[1..]) + Pieces(t)
    ensures Pieces(s + [SLASH] + t) == Pieces(s) + Pieces(t)
  {
    var w := s[1..] + [SLASH] + t;
    assert s + [SLASH] + t == [s[0]] + w by {}
    assert s == [s[0]] + s[1..] by {}
    PiecesCons(s[0], w);
    PiecesCons(s[0], s[1..]);
    ExtendFirst([s[0]], Pieces(s[1..]), Pieces(t));
  }

  /** Growing the first piece commutes with appending more pieces. */
  lemma ExtendFirst(c: seq<byte>, p: seq<seq<byte>>, q: seq<seq<byte>>)
    requires |p| > 0
    ensures [c + (p + q)[0]] + (p + q)[1..] == ([c + p[0]] + p[1..]) + q
  {
    assert (p + q)[1..] == p[1..] + q;
  }

  /** One unfolding of Pieces at a name byte. */
  lemma PiecesCons(c: byte, w: seq<byte>)
    requires c != SLASH
    ensures Pieces([c] + w) == [[c] + Pieces(w)[0]] + Pieces(w)[1..]
  {
    assert ([c] + w)[1..] == w;
  }

  lemma {:induction false} PiecesComponentsConcat(a: seq<seq<byte>>, b: seq<seq<byte>>)
    ensures PiecesComponents(a + b) == PiecesComponents(a) + PiecesComponents(b)
  {
    if a == [] {
      assert a + b == b;
    } else {
      assert (a + b)[1..] == a[1..] + b;
      PiecesComponentsConcat(a[1..], b);
    }
  }

  /** Splitting at a separator splits the segments. */
  lemma SegmentsJoin(s: seq<byte>, t: seq<byte>)
    ensures Segments(s + [SLASH] + t) == Segments(s) + Segments(t)
  {
    PiecesJoin(s, t);
    PiecesComponentsConcat(Pieces(s), Pieces(t));
  }

  /** Appending a separator and more text to a non-empty path appends the
      segments of that text to its components. */
  lemma ComponentsJoin(p: seq<byte>, t: seq<byte>)
    requires p != []
    ensures Components(p + [SLASH] + t) == Components(p) + Segments(t)
  {
    if p[0] == SLASH || p == [DOT] || (|p| >= 2 && p[0] == DOT && p[1] == SLASH) {
      ComponentsJoinLead(p, t);
    } else {
      ComponentsJoinPlain(p, t);
    }
  }

  /** ComponentsJoin when the path starts with a root or a `.` piece. */
  lemma ComponentsJoinLead(p: seq<byte>, t: seq<byte>)
    requires p != [] && (p[0] == SLASH || p == [DOT] || (|p| >= 2 && p[0] == DOT && p[1] == SLASH))
    ensures Components(p + [SLASH] + t) == Components(p) + Segments(t)
  {
    var u := p + [SLASH] + t;
    var lead := if p[0] == SLASH then RootDir else CurDir;
    assert u[0] == p[0] && u[1] == (if |p| >= 2 then p[1] else SLASH) by {}
    assert u[1..] == p[1..] + [SLASH] + t by {}
    SegmentsJoin(p[1..], t);
    AppendAssoc([lead], Segments(p[1..]), Segments(t));
  }

  /** Concatenation is associative (stated once so that proofs about
      component lists need not rediscover it element by element). */
  lemma AppendAssoc<T>(a: seq<T>, b: seq<T>, c: seq<T>)
    ensures (a + b) + c == a + (b + c)
  {
  }

  /** ComponentsJoin when the path is plain relative text. */
  lemma ComponentsJoinPlain(p: seq<byte>, t: seq<byte>)
    requires p != [] && !(p[0] == SLASH || p == [DOT] || (|p| >= 2 && p[0] == DOT && p[1] == SLASH))
    ensures Components(p + [SLASH] + t) == Components(p) + Segments(t)
  {
    var u := p + [SLASH] + t;
    assert u[0] == p[0] && |u| >= 2 && u[1] == (if |p| >= 2 then p[1] else SLASH) by {}
    assert Components(u) == Segments(u);
    SegmentsJoin(p, t);
  }

  lemma SegmentsEmpty()
    ensures Segments([]) == []
  {
    assert PiecesComponents([[]]) == PieceComponents([]) + PiecesComponents([]);
  }

  /** A normal name on its own is one `Normal` component. */
  lemma ComponentsOfName(x: seq<byte>)
    requires IsNormalName(x)
    ensures Components(x) == [Normal(x)]
  {
    SegmentsOfPiece(x);
    assert x[0] in x;
    if |x| >= 2 {
      assert x[1] in x;
    }
  }

  /** Pushing onto a path that ends with a separator. */
  lemma PushAfterSlash(buf: seq<byte>, x: seq<byte>)
    requires IsNormalName(x)
    requires |buf| > 0 && buf[|buf| - 1] == SLASH
    ensures Components(Push(buf, x)) == Components(buf) + [Normal(x)]
  {
    var b := buf[..|buf| - 1];
    assert buf == b + [SLASH] + [];
    assert Push(buf, x) == b + [SLASH] + x;
    if b == [] {
      RootThenName(x);
    } else {
      SegmentsOfPiece(x);
      SegmentsEmpty();
      ComponentsJoin(b, x);
      ComponentsJoin(b, []);
    }
  }

  /** The path `/` followed by a normal name. */
  lemma RootThenName(x: seq<byte>)
    requires IsNormalName(x)
    ensures Components([SLASH] + x) == Components([SLASH]) + [Normal(x)]
  {
    assert ([SLASH] + x)[1..] == x;
    assert [SLASH][1..] == [];
    SegmentsOfPiece(x);
    SegmentsEmpty();
  }

  /** Pushing a normal name onto any path adds exactly that name as its
      last component. */
  lemma PushComponents(buf: seq<byte>, x: seq<byte>)
    requires IsNormalName(x)
    ensures Components(Push(buf, x)) == Components(buf) + [Normal(x)]
  {
    if buf == [] {
      assert Push(buf, x) == x;
      ComponentsOfName(x);
    } else if buf[|buf| - 1] != SLASH {
      ComponentsJoin(buf, x);
      SegmentsOfPiece(x);
    } else {
      PushAfterSlash(buf, x);
    }
  }
}
