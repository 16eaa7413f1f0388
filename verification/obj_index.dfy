/**
  OBJ face corners (objloader.cpp): the `v/vt/vn` triplet parser getInt3,
  the relative/absolute index normalisation fix_v/fix_vt/fix_vn, the key
  order of Vertex, and the loop that reads the corners of an `f` line.
*/
module ObjIndex {
  import opened Wrappers
  import opened ObjText

  /** Vertex (objloader.cpp:136-141): 0-based indices, -1 for a missing one. */
  datatype Vertex = Vertex(v: int, vt: int, vn: int)

  /** The sizes of the v, vt and vn lists read so far, which relative indices count back from. */
  datatype Sizes = Sizes(nv: nat, nvt: nat, nvn: nat)

  /** fix_v, fix_vt and fix_vn (objloader.cpp:199-201). */
  function Fix(index: int, size: nat): int {
    if index > 0 then index - 1 else if index == 0 then 0 else size + index
  }

  /**
    OBJ numbers elements from 1, and from -1 backwards relative to the end:
    both kinds of valid index land inside the list, and the absolute index i
    names the same element as the relative index i - size - 1.
  */
  lemma FixInRange(index: int, size: nat)
    ensures 1 <= index <= size ==> 0 <= Fix(index, size) < size && Fix(index, size) == Fix(index - size - 1, size)
    ensures 1 <= -index <= size ==> 0 <= Fix(index, size) < size
    ensures index != 0 && Fix(index, size) < 0 ==> index + size < 0
  {
  }

  /** The characters that end one number of a triplet. */
  const SlashEnds: set<char> := {'/', ' ', '\t', '\r'}

  /** The characters that end a whole triplet. */
  const Ends: set<char> := {' ', '\t', '\r'}

  /** r is what is left of t after some of its front was consumed. */
  predicate Suffix(r: string, t: string) {
    |r| <= |t| && r == t[|t| - |r|..]
  }

  lemma SuffixOfTail(r: string, t: string)
    requires t != [] && Suffix(r, t[1..])
    ensures Suffix(r, t) && |r| < |t|
  {
    assert t[1..][|t| - 1 - |r|..] == t[|t| - |r|..];
  }

  /** Skips one number: strcspn up to a stop character or the terminator. */
  function SkipNumber(t: string, stop: set<char>): (r: string)
    ensures Suffix(r, t)
    ensures |r| == |t| ==> At(t, 0) in stop || At(t, 0) == NUL
    ensures At(r, 0) in stop || At(r, 0) == NUL
  {
    t[CSpan(t, stop)..]
  }

  /**
    The part of getInt3 after `i/` (objloader.cpp:224-241): `/n` for a
    normal alone, else a texcoord and optionally `/n`.
  */
  function AfterSlash(sizes: Sizes, v: int, t2: string): (r: (Vertex, string))
    ensures Suffix(r.1, t2)
  {
    if At(t2, 0) == '/' then
      var t3 := t2[1..];
      var r := SkipNumber(t3, Ends);
      SuffixOfTail(r, t2);
      (Vertex(v, -1, Fix(Atoi(t3), sizes.nvn)), r)
    else
      var vt := Fix(Atoi(t2), sizes.nvt);
      var t4 := SkipNumber(t2, SlashEnds);
      if At(t4, 0) != '/' then (Vertex(v, vt, -1), t4)
      else
        var t5 := t4[1..];
        var r := SkipNumber(t5, Ends);
        SuffixOfTail(r, t4);
        assert t2[|t2| - |t4|..][|t4| - |r|..] == t2[|t2| - |r|..];
        (Vertex(v, vt, Fix(Atoi(t5), sizes.nvn)), r)
  }

  /**
    getInt3 (objloader.cpp:216-242): a position index, then optionally
    `/texcoord`, `//normal` or `/texcoord/normal`. It returns the corner and
    the rest of the token. It consumes something unless the token already
    starts at an end character or the terminator.
  */
  function GetInt3(sizes: Sizes, t: string): (r: (Vertex, string))
    ensures Suffix(r.1, t)
    ensures |r.1| == |t| ==> At(t, 0) in Ends || At(t, 0) == NUL
    ensures r.0.v == Fix(Atoi(t), sizes.nv)
  {
    var v := Fix(Atoi(t), sizes.nv);
    var t1 := SkipNumber(t, SlashEnds);
    if At(t1, 0) != '/' then (Vertex(v, -1, -1), t1)
    else
      var r := AfterSlash(sizes, v, t1[1..]);
      SuffixOfTail(r.1, t1);
      assert t[|t| - |t1|..][|t1| - |r.1|..] == t[|t| - |r.1|..];
      r
  }

  /** A corner as written in an OBJ file, 1-based or negative; absent parts are None. */
  datatype Ref = Ref(v: int, vt: Option<int>, vn: Option<int>)

  /**
    The four spellings getInt3 accepts, `i`, `i/t`, `i//n` and `i/t/n`,
    followed by the rest of the line.
  */
  function RenderThen(c: Ref, rest: string): string {
    Decimal(c.v) + match (c.vt, c.vn)
      case (None, None) => rest
      case (Some(t), None) => "/" + (Decimal(t) + rest)
      case (None, Some(n)) => "/" + ("/" + (Decimal(n) + rest))
      case (Some(t), Some(n)) => "/" + (Decimal(t) + ("/" + (Decimal(n) + rest)))
  }

  /** The corner a written reference denotes: each part normalised, -1 where absent. */
  function Resolve(sizes: Sizes, c: Ref): Vertex {
    Vertex(Fix(c.v, sizes.nv),
           if c.vt.Some? then Fix(c.vt.value, sizes.nvt) else -1,
           if c.vn.Some? then Fix(c.vn.value, sizes.nvn) else -1)
  }

  /** The rest of a line after a triplet: nothing, or an end character first. */
  predicate EndsToken(rest: string) {
    At(rest, 0) in Ends || At(rest, 0) == NUL
  }

  /** A decimal number followed by a stop character: atoi reads it, strcspn skips exactly it. */
  lemma {:induction false} NumberThen(a: int, rest: string, stop: set<char>)
    requires At(rest, 0) in stop || At(rest, 0) == NUL
    requires '-' !in stop && forall c | c in stop :: !IsDigit(c)
    ensures Atoi(Decimal(a) + rest) == a
    ensures CSpan(Decimal(a) + rest, stop) == |Decimal(a)|
    ensures (Decimal(a) + rest)[|Decimal(a)|..] == rest
  {
    assert rest == [] || !IsDigit(rest[0]);
    AtoiDecimal(a, rest);
    var d := Decimal(a);
    DecimalChars(a);
    assert forall i :: 0 <= i < |d| ==> d[i] !in stop && d[i] != NUL;
    CSpanOfPrefix(d, rest, stop);
  }

  lemma {:induction false} GetInt3Plain(sizes: Sizes, a: int, rest: string)
    requires EndsToken(rest)
    ensures GetInt3(sizes, Decimal(a) + rest) == (Vertex(Fix(a, sizes.nv), -1, -1), rest)
  {
    NumberThen(a, rest, SlashEnds);
  }

  lemma {:induction false} GetInt3Slash(sizes: Sizes, a: int, t2: string)
    ensures GetInt3(sizes, Decimal(a) + ("/" + t2)) == AfterSlash(sizes, Fix(a, sizes.nv), t2)
  {
    NumberThen(a, "/" + t2, SlashEnds);
    assert ("/" + t2)[1..] == t2;
  }

  lemma {:induction false} AfterSlashNormal(sizes: Sizes, x: int, n: int, rest: string)
    requires EndsToken(rest)
    ensures AfterSlash(sizes, x, "/" + (Decimal(n) + rest)) == (Vertex(x, -1, Fix(n, sizes.nvn)), rest)
  {
    assert ("/" + (Decimal(n) + rest))[1..] == Decimal(n) + rest;
    NumberThen(n, rest, Ends);
  }

  lemma {:induction false} AfterSlashTex(sizes: Sizes, x: int, tv: int, rest: string)
    requires EndsToken(rest)
    ensures AfterSlash(sizes, x, Decimal(tv) + rest) == (Vertex(x, Fix(tv, sizes.nvt), -1), rest)
  {
    var t2 := Decimal(tv) + rest;
    assert At(t2, 0) == Decimal(tv)[0];
    NumberThen(tv, rest, SlashEnds);
    assert SkipNumber(t2, SlashEnds) == rest;
    assert At(rest, 0) != '/';
  }

  lemma {:induction false} AfterSlashTexNormal(sizes: Sizes, x: int, tv: int, n: int, rest: string)
    requires EndsToken(rest)
    ensures AfterSlash(sizes, x, Decimal(tv) + ("/" + (Decimal(n) + rest)))
         == (Vertex(x, Fix(tv, sizes.nvt), Fix(n, sizes.nvn)), rest)
  {
    var t5 := Decimal(n) + rest;
    NumberThen(tv, "/" + t5, SlashEnds);
    assert ("/" + t5)[1..] == t5;
    NumberThen(n, rest, Ends);
  }

  /** getInt3 reads each of its four spellings back to the corner it denotes, and stops right after it. */
  lemma {:induction false} GetInt3Forms(sizes: Sizes, c: Ref, rest: string)
    requires EndsToken(rest)
    ensures GetInt3(sizes, RenderThen(c, rest)) == (Resolve(sizes, c), rest)
  {
    var dv := Decimal(c.v);
    var x := Fix(c.v, sizes.nv);
    match (c.vt, c.vn)
    case (None, None) =>
      GetInt3Plain(sizes, c.v, rest);
    case (Some(tv), None) =>
      var t2 := Decimal(tv) + rest;
      GetInt3Slash(sizes, c.v, t2);
      AfterSlashTex(sizes, x, tv, rest);
    case (None, Some(nv)) =>
      var t2 := "/" + (Decimal(nv) + rest);
      GetInt3Slash(sizes, c.v, t2);
      AfterSlashNormal(sizes, x, nv, rest);
    case (Some(tv), Some(nv)) =>
      var t2 := Decimal(tv) + ("/" + (Decimal(nv) + rest));
      GetInt3Slash(sizes, c.v, t2);
      AfterSlashTexNormal(sizes, x, tv, nv, rest);
  }

  /** Lexicographic order on integer sequences. */
  function LexLess(a: seq<int>, b: seq<int>): bool {
    if a == [] || b == [] then a == [] && b != []
    else if a[0] != b[0] then a[0] < b[0]
    else LexLess(a[1..], b[1..])
  }

  lemma {:induction false} LexLessIrreflexive(a: seq<int>)
    ensures !LexLess(a, a)
  {
    if a != [] {
      LexLessIrreflexive(a[1..]);
    }
  }

  lemma {:induction false} LexLessTransitive(a: seq<int>, b: seq<int>, c: seq<int>)
    requires LexLess(a, b) && LexLess(b, c)
    ensures LexLess(a, c)
  {
    if a != [] && b != [] && c != [] && a[0] == b[0] && b[0] == c[0] {
      LexLessTransitive(a[1..], b[1..], c[1..]);
    }
  }

  /** Two sequences of one length are either equal or ordered one way. */
  lemma {:induction false} LexLessTotal(a: seq<int>, b: seq<int>)
    requires |a| == |b|
    ensures !LexLess(a, b) && !LexLess(b, a) <==> a == b
  {
    if a != [] && a[0] == b[0] {
      LexLessTotal(a[1..], b[1..]);
      if a[1..] == b[1..] {
        assert a == [a[0]] + a[1..];
        assert b == [b[0]] + b[1..];
      }
    } else if a == [] {
    } else {
      assert a != b;
    }
    if a == b {
      LexLessIrreflexive(a);
    }
  }

  /** operator< on Vertex (objloader.cpp:147-152): by position, then normal, then texcoord. */
  function Less(a: Vertex, b: Vertex): bool {
    if a.v != b.v then a.v < b.v
    else if a.vn != b.vn then a.vn < b.vn
    else if a.vt != b.vt then a.vt < b.vt
    else false
  }

  /** The key the order compares: normal before texcoord. */
  function Key(a: Vertex): seq<int> {
    [a.v, a.vn, a.vt]
  }

  /** operator< is the lexicographic order of the keys (v, vn, vt). */
  lemma {:induction false} LessIsLexicographic(a: Vertex, b: Vertex)
    ensures Less(a, b) <==> LexLess(Key(a), Key(b))
  {
    var ka, kb := Key(a), Key(b);
    assert ka[1..] == [a.vn, a.vt] && kb[1..] == [b.vn, b.vt];
    assert ka[1..][1..] == [a.vt] && kb[1..][1..] == [b.vt];
    assert ka[1..][1..][1..] == [] && kb[1..][1..][1..] == [];
    if a.v == b.v {
      assert LexLess(ka, kb) == LexLess(ka[1..], kb[1..]);
      if a.vn == b.vn {
        assert LexLess(ka[1..], kb[1..]) == LexLess(ka[1..][1..], kb[1..][1..]);
        if a.vt == b.vt {
          assert LexLess(ka[1..][1..], kb[1..][1..]) == LexLess([], []);
        }
      }
    }
  }

  /**
    operator< is a strict weak order fit for std::map: irreflexive,
    transitive, and two vertices are incomparable only when equal.
  */
  lemma {:induction false} LessIsStrictTotalOrder(a: Vertex, b: Vertex, c: Vertex)
    ensures !Less(a, a)
    ensures Less(a, b) && Less(b, c) ==> Less(a, c)
    ensures !Less(a, b) && !Less(b, a) <==> a == b
  {
    LessIsLexicographic(a, a);
    LessIsLexicographic(a, b);
    LessIsLexicographic(b, a);
    LessIsLexicographic(b, c);
    LessIsLexicographic(a, c);
    LexLessIrreflexive(Key(a));
    if Less(a, b) && Less(b, c) {
      LexLessTransitive(Key(a), Key(b), Key(c));
    }
    LexLessTotal(Key(a), Key(b));
    assert Key(a) == Key(b) ==> a == b by {
      if Key(a) == Key(b) {
        assert Key(a)[0] == Key(b)[0] && Key(a)[1] == Key(b)[1] && Key(a)[2] == Key(b)[2];
      }
    }
  }

  /** One pass of the `f` line loop (objloader.cpp:318-321): a corner, then optional blanks. */
  function FaceStep(sizes: Sizes, t: string): (r: (Vertex, string))
    ensures Suffix(r.1, t)
    ensures At(t, 0) != NUL && At(t, 0) != '\r' ==> |r.1| < |t|
  {
    var (c, t1) := GetInt3(sizes, t);
    var t2 := ParseSepOpt(t1);
    assert t[|t| - |t1|..][|t1| - |t2|..] == t[|t| - |t2|..];
    (c, t2)
  }

  /**
    The loop as written only stops at the terminator. A line read from a
    file with CRLF endings keeps its '\r'; there getInt3 consumes nothing
    and parseSepOpt skips nothing, so the loop's guard stays true, the token
    never moves and each pass pushes another corner.
  */
  lemma AsWrittenFaceLoopStalls(sizes: Sizes, t: string)
    requires At(t, 0) == '\r'
    ensures At(t, 0) != NUL
    ensures FaceStep(sizes, t) == (Vertex(Fix(Atoi(t), sizes.nv), -1, -1), t)
  {
    assert CSpan(t, SlashEnds) == 0;
    assert Span(t, Blanks) == 0;
  }

  /** Corners of a written face joined by single spaces, as an exporter writes them. */
  function JoinThen(cs: seq<Ref>, end: string): string {
    if cs == [] then end
    else if |cs| == 1 then RenderThen(cs[0], end)
    else RenderThen(cs[0], " " + JoinThen(cs[1..], end))
  }

  /**
    The corner loop with the line's '\r' treated as its end, as getInt3
    already treats it: every pass consumes something, so the loop ends.
    It returns the corners and what is left, which starts at '\r' or is empty.
  */
  function ParseCorners(sizes: Sizes, t: string): (r: (seq<Vertex>, string))
    ensures At(r.1, 0) == NUL || At(r.1, 0) == '\r'
    ensures |r.1| <= |t|
    decreases |t|
  {
    if At(t, 0) == NUL || At(t, 0) == '\r' then ([], t)
    else
      var (c, t1) := FaceStep(sizes, t);
      var (cs, rest) := ParseCorners(sizes, t1);
      ([c] + cs, rest)
  }

  /** An `f` line after its keyword (objloader.cpp:315-322): a separator, then the corners. */
  function ParseFace(sizes: Sizes, t: string): (r: Result<seq<Vertex>, string>)
    ensures r.Failure? <==> !IsSep(At(t, 0))
  {
    var t1 :- ParseSep(t);
    Success(ParseCorners(sizes, t1).0)
  }

  /** The corners a written face denotes. */
  function ResolveAll(sizes: Sizes, cs: seq<Ref>): (r: seq<Vertex>)
    ensures |r| == |cs|
    ensures forall i :: 0 <= i < |cs| ==> r[i] == Resolve(sizes, cs[i])
  {
    if cs == [] then [] else [Resolve(sizes, cs[0])] + ResolveAll(sizes, cs[1..])
  }

  /** The corner loop reads one written corner, then carries on where parseSepOpt leaves it. */
  lemma {:induction false} ParseCornersFirst(sizes: Sizes, c: Ref, rest: string)
    requires EndsToken(rest)
    ensures var next := ParseSepOpt(rest);
      ParseCorners(sizes, RenderThen(c, rest))
        == ([Resolve(sizes, c)] + ParseCorners(sizes, next).0, ParseCorners(sizes, next).1)
  {
    var t := RenderThen(c, rest);
    assert At(t, 0) == Decimal(c.v)[0];
    GetInt3Forms(sizes, c, rest);
  }

  lemma SkipOneSpace(tail: string)
    requires !IsSep(At(tail, 0))
    ensures ParseSepOpt(" " + tail) == tail
  {
    assert (" " + tail)[1..] == tail;
    assert Span(tail, Blanks) == 0;
  }

  /** A line end: nothing, or the '\r' a CRLF file leaves. */
  predicate LineEnd(end: string) {
    end == [] || end[0] == '\r'
  }

  /** Reading written corners gives back what they denote, and stops at the line's end. */
  lemma {:induction false} ParseCornersJoin(sizes: Sizes, cs: seq<Ref>, end: string)
    requires LineEnd(end)
    ensures ParseCorners(sizes, JoinThen(cs, end)) == (ResolveAll(sizes, cs), end)
  {
    if cs == [] {
      assert ParseCorners(sizes, end) == ([], end);
    } else if |cs| == 1 {
      ParseLastCorner(sizes, cs[0], end);
      assert ResolveAll(sizes, cs[1..]) == [];
    } else {
      ParseCornersJoin(sizes, cs[1..], end);
      ParseNextCorner(sizes, cs[0], cs[1..], end);
    }
  }

  lemma {:induction false} ParseLastCorner(sizes: Sizes, c: Ref, end: string)
    requires LineEnd(end)
    ensures ParseCorners(sizes, RenderThen(c, end)) == ([Resolve(sizes, c)], end)
  {
    assert Span(end, Blanks) == 0;
    assert ParseSepOpt(end) == end;
    assert ParseCorners(sizes, end) == ([], end);
    ParseCornersFirst(sizes, c, end);
    assert [Resolve(sizes, c)] + [] == [Resolve(sizes, c)];
  }

  lemma {:induction false} ParseNextCorner(sizes: Sizes, c: Ref, cs: seq<Ref>, end: string)
    requires cs != []
    ensures var tail := JoinThen(cs, end);
      ParseCorners(sizes, RenderThen(c, " " + tail))
        == ([Resolve(sizes, c)] + ParseCorners(sizes, tail).0, ParseCorners(sizes, tail).1)
  {
    var tail := JoinThen(cs, end);
    JoinStart(cs, end);
    SkipOneSpace(tail);
    ParseCornersFirst(sizes, c, " " + tail);
  }

  /** A joined face with at least one corner starts with a sign or a digit. */
  lemma {:induction false} JoinStart(cs: seq<Ref>, end: string)
    requires cs != []
    ensures |JoinThen(cs, end)| > 0 && !IsSep(JoinThen(cs, end)[0]) && JoinThen(cs, end)[0] != '\r'
  {
    var d := Decimal(cs[0].v);
    assert d[0] == '-' || IsDigit(d[0]);
  }

  /** A whole face line read with the corrected loop yields exactly its corners. */
  lemma {:induction false} ParseFaceRoundTrip(sizes: Sizes, cs: seq<Ref>, end: string)
    requires LineEnd(end)
    ensures ParseFace(sizes, " " + JoinThen(cs, end)) == Success(ResolveAll(sizes, cs))
  {
    var t1 := JoinThen(cs, end);
    if cs != [] {
      JoinStart(cs, end);
    }
    SkipSeparator(t1);
    ParseCornersJoin(sizes, cs, end);
  }

  lemma SkipSeparator(t1: string)
    requires !IsSep(At(t1, 0))
    ensures ParseSep(" " + t1) == Success(t1)
  {
    assert (" " + t1)[1..] == t1;
    assert Span(t1, Blanks) == 0;
  }
}
