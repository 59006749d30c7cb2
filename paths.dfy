/**
 * POSIX path strings with the parts of Node's `path` module the tool uses:
 * `join` and `resolve` (a normalising join, no working directory), `dirname`,
 * `basename` and `extname`. A normalised relative path is a run of `..`
 * segments followed by plain segments; its shape is what lets the script-name
 * collision loop terminate.
 */
module Paths {
  import opened Wrappers
  import opened Strings

  const Sep: char := '/'

  predicate IsAbsolute(p: string) {
    |p| > 0 && p[0] == Sep
  }

  /** A segment that survives normalisation unchanged. */
  predicate Plain(seg: string) {
    seg != "" && seg != "." && seg != ".."
  }

  /** `..` segments first, then plain segments. */
  predicate UpsThenPlains(segs: seq<string>) {
    && (forall i :: 0 <= i < |segs| ==> segs[i] == ".." || Plain(segs[i]))
    && (forall i, j :: 0 <= i < j < |segs| && segs[j] == ".." ==> segs[i] == "..")
  }

  /** One step of normalisation over a stack of kept segments. */
  function Step(abs: bool, st: seq<string>, seg: string): seq<string> {
    if seg == "" || seg == "." then st
    else if seg == ".." then
      if |st| > 0 && st[|st| - 1] != ".." then st[..|st| - 1]
      else if abs then st
      else st + [".."]
    else st + [seg]
  }

  function Walk(abs: bool, st: seq<string>, segs: seq<string>): seq<string>
    decreases |segs|
  {
    if segs == [] then st else Walk(abs, Step(abs, st, segs[0]), segs[1..])
  }

  /** `path.normalize`, without trailing-slash preservation. */
  function Normalize(p: string): string {
    var abs := IsAbsolute(p);
    var st := Walk(abs, [], Split(p, Sep));
    if abs then [Sep] + JoinWith(st, [Sep])
    else if st == [] then "."
    else JoinWith(st, [Sep])
  }

  /** `path.join(a, b)`. */
  function Join(a: string, b: string): string {
    Normalize(a + [Sep] + b)
  }

  /** `path.resolve(a, b)`: an absolute `b` replaces `a`. */
  function Resolve(a: string, b: string): string {
    if IsAbsolute(b) then Normalize(b) else Join(a, b)
  }

  function LastIndexOfChar(s: string, c: char): (r: Option<nat>)
    ensures r.Some? ==> r.value < |s| && s[r.value] == c && c !in s[r.value + 1..]
    ensures r.None? ==> c !in s
  {
    if s == [] then None
    else if s[|s| - 1] == c then Some(|s| - 1)
    else
      var r := LastIndexOfChar(s[..|s| - 1], c);
      assert s == s[..|s| - 1] + [s[|s| - 1]];
      r
  }

  /** `path.dirname`: everything before the last separator. */
  function Dirname(p: string): (r: string)
    ensures r != []
  {
    match LastIndexOfChar(p, Sep)
    case None => "."
    case Some(i) => if i == 0 then [Sep] else p[..i]
  }

  /** `path.basename`: everything after the last separator. */
  function Basename(p: string): (r: string)
    ensures Sep !in r
  {
    match LastIndexOfChar(p, Sep)
    case None => p
    case Some(i) => p[i + 1..]
  }

  /** `path.extname`: the base name from its last dot, unless that dot starts the name. */
  function Extname(p: string): string {
    var base := Basename(p);
    match LastIndexOfChar(base, '.')
    case None => ""
    case Some(i) => if i == 0 || base == ".." then "" else base[i..]
  }

  /**
   * A normalised relative path: `.` or a non-empty run of `..` segments
   * followed by plain segments, as `path.join` and `path.relative` produce.
   */
  predicate NormalRel(p: string) {
    p == "." || UpsThenPlains(Split(p, Sep))
  }

  // ---------------------------------------------------------------------
  // Facts about the normalising walk.

  lemma {:induction false} WalkAppend(abs: bool, st: seq<string>, xs: seq<string>, ys: seq<string>)
    ensures Walk(abs, st, xs + ys) == Walk(abs, Walk(abs, st, xs), ys)
    decreases |xs|
  {
    if xs == [] {
      assert xs + ys == ys;
    } else {
      assert (xs + ys)[0] == xs[0] && (xs + ys)[1..] == xs[1..] + ys;
      WalkAppend(abs, Step(abs, st, xs[0]), xs[1..], ys);
    }
  }

  lemma {:induction false} WalkPlains(abs: bool, st: seq<string>, ys: seq<string>)
    requires forall i :: 0 <= i < |ys| ==> Plain(ys[i])
    ensures Walk(abs, st, ys) == st + ys
    decreases |ys|
  {
    if ys == [] {
    } else {
      WalkPlains(abs, st + [ys[0]], ys[1..]);
      assert st + [ys[0]] + ys[1..] == st + ys;
    }
  }

  /** A relative walk keeps its stack in the normalised shape, free of separators. */
  lemma {:induction false} WalkShape(st: seq<string>, segs: seq<string>)
    requires UpsThenPlains(st)
    requires forall i :: 0 <= i < |st| ==> Sep !in st[i]
    requires forall i :: 0 <= i < |segs| ==> Sep !in segs[i]
    ensures UpsThenPlains(Walk(false, st, segs))
    ensures forall i :: 0 <= i < |Walk(false, st, segs)| ==> Sep !in Walk(false, st, segs)[i]
    decreases |segs|
  {
    if segs != [] {
      var next := Step(false, st, segs[0]);
      assert UpsThenPlains(next);
      WalkShape(next, segs[1..]);
    }
  }

  /** Normalising a relative path gives a normalised relative path. */
  lemma NormalizeRelative(p: string)
    requires !IsAbsolute(p)
    ensures NormalRel(Normalize(p))
    ensures !IsAbsolute(Normalize(p))
  {
    var st := Walk(false, [], Split(p, Sep));
    WalkShape([], Split(p, Sep));
    if st != [] {
      SplitJoin(st, Sep);
      assert Plain(st[0]) || st[0] == "..";
      JoinWithHead(st, [Sep]);
    }
  }

  lemma {:induction false} JoinWithHead(pieces: seq<string>, sep: string)
    requires |pieces| >= 1 && pieces[0] != ""
    ensures JoinWith(pieces, sep) != [] && JoinWith(pieces, sep)[0] == pieces[0][0]
  {
  }

  /** A normalised relative path other than `.` does not start with a separator and is not empty. */
  lemma NormalRelHead(p: string)
    requires NormalRel(p)
    ensures p != [] && p[0] != Sep
  {
    if p != "." {
      var segs := Split(p, Sep);
      assert p == [] || p[0] == Sep ==> segs[0] == "";
      assert segs[0] == ".." || Plain(segs[0]);
    }
  }

  /** `path.join(path.dirname(f), href)` for a normalised relative `f` is again normalised and relative. */
  lemma JoinDirnameNormal(f: string, href: string)
    requires NormalRel(f)
    ensures NormalRel(Join(Dirname(f), href)) && !IsAbsolute(Join(Dirname(f), href))
  {
    NormalRelHead(f);
    var d := Dirname(f);
    assert d[0] != Sep by {
      match LastIndexOfChar(f, Sep)
      case None =>
      case Some(i) =>
        assert f[i] == Sep;
        assert i != 0;
    }
    assert (d + [Sep] + href)[0] == d[0];
    NormalizeRelative(d + [Sep] + href);
  }

  // ---------------------------------------------------------------------
  // Replacing text inside one plain segment of a normalised relative path.

  lemma {:induction false} SplitPrefixNoSep(m: string, b: string, c: char)
    requires c !in m
    ensures Split(m + b, c) == [m + Split(b, c)[0]] + Split(b, c)[1..]
  {
    if m != [] {
      assert (m + b)[0] == m[0] && (m + b)[1..] == m[1..] + b;
      assert c !in m[1..];
      SplitPrefixNoSep(m[1..], b, c);
      assert [m[0]] + (m[1..] + Split(b, c)[0]) == m + Split(b, c)[0];
    } else {
      assert m + b == b;
      assert m + Split(b, c)[0] == Split(b, c)[0];
      assert [Split(b, c)[0]] + Split(b, c)[1..] == Split(b, c);
    }
  }

  function Last<T>(s: seq<T>): T
    requires s != []
  {
    s[|s| - 1]
  }

  /** Splitting around a separator-free middle: the middle joins the last piece before it and the first after it. */
  lemma {:induction false} SplitMiddle(a: string, m: string, b: string, c: char)
    requires c !in m
    ensures var sa, sb := Split(a, c), Split(b, c);
      Split(a + m + b, c) == sa[..|sa| - 1] + [Last(sa) + m + sb[0]] + sb[1..]
  {
    var sa, sb := Split(a, c), Split(b, c);
    if a == [] {
      assert a + m + b == m + b;
      assert sa == [""] && sa[..0] == [] && Last(sa) + m + sb[0] == m + sb[0];
      SplitPrefixNoSep(m, b, c);
    } else {
      var rest := a[1..] + m + b;
      assert (a + m + b)[0] == a[0] && (a + m + b)[1..] == rest;
      SplitMiddle(a[1..], m, b, c);
      var sa1 := Split(a[1..], c);
      if a[0] == c {
        MiddleAfterSeparator(sa1, m, sb);
      } else {
        MiddleAfterChar(a[0], sa1, m, sb);
      }
    }
  }

  /** The step of `SplitMiddle` when the first character is the separator. */
  lemma MiddleAfterSeparator(sa1: seq<string>, m: string, sb: seq<string>)
    requires |sa1| >= 1 && |sb| >= 1
    ensures var sa := [""] + sa1;
      [""] + (sa1[..|sa1| - 1] + [Last(sa1) + m + sb[0]] + sb[1..]) == sa[..|sa| - 1] + [Last(sa) + m + sb[0]] + sb[1..]
  {
    var sa := [""] + sa1;
    assert sa[..|sa| - 1] == [""] + sa1[..|sa1| - 1];
  }

  /** The step of `SplitMiddle` when the first character is not the separator. */
  lemma MiddleAfterChar(x: char, sa1: seq<string>, m: string, sb: seq<string>)
    requires |sa1| >= 1 && |sb| >= 1
    ensures var sa := [[x] + sa1[0]] + sa1[1..];
      var r := sa1[..|sa1| - 1] + [Last(sa1) + m + sb[0]] + sb[1..];
      [[x] + r[0]] + r[1..] == sa[..|sa| - 1] + [Last(sa) + m + sb[0]] + sb[1..]
  {
    var sa := [[x] + sa1[0]] + sa1[1..];
    var r := sa1[..|sa1| - 1] + [Last(sa1) + m + sb[0]] + sb[1..];
    if |sa1| == 1 {
      assert r == [sa1[0] + m + sb[0]] + sb[1..];
      assert [x] + (sa1[0] + m + sb[0]) == Last(sa) + m + sb[0];
    } else {
      assert r[0] == sa1[0];
      assert r[1..] == sa1[1..|sa1| - 1] + [Last(sa1) + m + sb[0]] + sb[1..];
      assert sa[..|sa| - 1] == [[x] + sa1[0]] + sa1[1..|sa1| - 1];
    }
  }

  lemma {:induction false} SumOfLengthsAppend(a: seq<string>, b: seq<string>)
    ensures SumOfLengths(a + b) == SumOfLengths(a) + SumOfLengths(b)
  {
    if a == [] {
      assert a + b == b;
    } else {
      assert (a + b)[1..] == a[1..] + b;
      SumOfLengthsAppend(a[1..], b);
    }
  }

  lemma {:induction false} JoinWithLength(pieces: seq<string>, sep: string)
    requires pieces != []
    ensures |JoinWith(pieces, sep)| == SumOfLengths(pieces) + (|pieces| - 1) * |sep|
  {
    if |pieces| > 1 {
      JoinWithLength(pieces[1..], sep);
    }
  }

  predicate HasNonDot(m: string) {
    exists k :: 0 <= k < |m| && m[k] != '.'
  }

  /** The segment holding a middle with a non-dot character is plain. */
  lemma PlainMiddle(l: string, m: string, f: string)
    requires HasNonDot(m)
    ensures Plain(l + m + f)
  {
    var k :| 0 <= k < |m| && m[k] != '.';
    assert (l + m + f)[|l| + k] == m[k];
  }

  /** The pieces of `a + m + b` around the segment that holds `m`. */
  lemma SegmentAround(a: string, m: string, m2: string, b: string)
      returns (init: seq<string>, y: string, y2: string, tail: seq<string>)
    requires Sep !in m && Sep !in m2
    requires HasNonDot(m) && HasNonDot(m2)
    ensures Split(a + m + b, Sep) == init + [y] + tail
    ensures Split(a + m2 + b, Sep) == init + [y2] + tail
    ensures Plain(y) && Plain(y2)
    ensures |y2| - |y| == |m2| - |m|
  {
    var sa, sb := Split(a, Sep), Split(b, Sep);
    SplitMiddle(a, m, b, Sep);
    SplitMiddle(a, m2, b, Sep);
    init, tail := sa[..|sa| - 1], sb[1..];
    y, y2 := Last(sa) + m + sb[0], Last(sa) + m2 + sb[0];
    PlainMiddle(Last(sa), m, sb[0]);
    PlainMiddle(Last(sa), m2, sb[0]);
  }

  /** In the normalised shape, everything after a plain segment is plain. */
  lemma PlainsAfter(init: seq<string>, y: string, tail: seq<string>)
    requires UpsThenPlains(init + [y] + tail) && Plain(y)
    ensures forall i :: 0 <= i < |tail| ==> Plain(tail[i])
  {
    var segs := init + [y] + tail;
    forall i | 0 <= i < |tail| ensures Plain(tail[i]) {
      assert segs[|init| + 1 + i] == tail[i];
      assert segs[|init|] == y;
    }
  }

  lemma SwapPlain(init: seq<string>, y: string, y2: string, tail: seq<string>)
    requires UpsThenPlains(init + [y] + tail) && Plain(y) && Plain(y2)
    ensures UpsThenPlains(init + [y2] + tail)
  {
    var segs, segs2 := init + [y] + tail, init + [y2] + tail;
    forall i | 0 <= i < |segs2| ensures segs2[i] == ".." || Plain(segs2[i]) {
      if i != |init| { assert segs2[i] == segs[i]; }
    }
    assert segs[|init|] == y;
    forall i, j | 0 <= i < j < |segs2| && segs2[j] == ".." ensures segs2[i] == ".." {
      assert j != |init|;
      assert segs2[j] == segs[j];
      assert j < |init|;
      assert segs2[i] == segs[i];
    }
  }

  /** Length of a joined path whose pieces end in plain segments. */
  lemma JoinLength(base: string, n: string, pre: seq<string>, y: string, tail: seq<string>)
    requires Split(base + [Sep] + n, Sep) == pre + ([y] + tail)
    requires Plain(y) && forall i :: 0 <= i < |tail| ==> Plain(tail[i])
    ensures var abs := IsAbsolute(base + [Sep] + n);
      |Join(base, n)| == (if abs then 1 else 0) + SumOfLengths(Walk(abs, [], pre)) + |y| + SumOfLengths(tail)
        + (|Walk(abs, [], pre)| + |tail|)
  {
    var abs := IsAbsolute(base + [Sep] + n);
    WalkAppend(abs, [], pre, [y] + tail);
    var p := Walk(abs, [], pre);
    WalkPlains(abs, p, [y] + tail);
    var st := p + ([y] + tail);
    JoinWithLength(st, [Sep]);
    SumOfLengthsAppend(p, [y] + tail);
    assert ([y] + tail)[1..] == tail;
  }

  /**
   * Replacing a separator-free middle `m` of a normalised relative path by
   * another separator-free `m2` (both with a non-dot character) keeps the path
   * normalised.
   */
  lemma ReplaceKeepsNormal(a: string, m: string, m2: string, b: string)
    requires Sep !in m && Sep !in m2
    requires HasNonDot(m) && HasNonDot(m2)
    requires NormalRel(a + m + b)
    ensures NormalRel(a + m2 + b)
  {
    var n := a + m + b;
    var init, y, y2, tail := SegmentAround(a, m, m2, b);
    assert n != "." by {
      var k :| 0 <= k < |m| && m[k] != '.';
      assert n[|a| + k] == m[k];
    }
    SwapPlain(init, y, y2, tail);
  }

  /** A longer middle, replaced as above, makes the join with any base longer. */
  lemma ReplaceInSegment(base: string, a: string, m: string, m2: string, b: string)
    requires Sep !in m && Sep !in m2
    requires HasNonDot(m) && HasNonDot(m2)
    requires NormalRel(a + m + b)
    requires |m2| > |m|
    ensures |Join(base, a + m2 + b)| > |Join(base, a + m + b)|
  {
    var n, n2 := a + m + b, a + m2 + b;
    var init, y, y2, tail := SegmentAround(a, m, m2, b);
    assert n != "." by {
      var k :| 0 <= k < |m| && m[k] != '.';
      assert n[|a| + k] == m[k];
    }
    PlainsAfter(init, y, tail);
    var whole, whole2 := base + [Sep] + n, base + [Sep] + n2;
    SplitAppend(base, Sep, n);
    SplitAppend(base, Sep, n2);
    assert IsAbsolute(whole2) == IsAbsolute(whole) by {
      assert whole[0] == whole2[0];
    }
    var pre := Split(base, Sep) + init;
    assert Split(whole, Sep) == pre + ([y] + tail);
    assert Split(whole2, Sep) == pre + ([y2] + tail);
    JoinLength(base, n, pre, y, tail);
    JoinLength(base, n2, pre, y2, tail);
  }

  // ---------------------------------------------------------------------
  // Absolute paths made of plain segments.

  /** Plain segments with no separator inside. */
  predicate PlainSegments(xs: seq<string>) {
    forall i :: 0 <= i < |xs| ==> Plain(xs[i]) && Sep !in xs[i]
  }

  lemma {:induction false} JoinWithAppend(xs: seq<string>, ys: seq<string>, sep: string)
    requires xs != [] && ys != []
    ensures JoinWith(xs + ys, sep) == JoinWith(xs, sep) + sep + JoinWith(ys, sep)
    decreases |xs|
  {
    if |xs| == 1 {
      assert (xs + ys)[0] == xs[0] && (xs + ys)[1..] == ys;
    } else {
      assert (xs + ys)[0] == xs[0] && (xs + ys)[1..] == xs[1..] + ys;
      JoinWithAppend(xs[1..], ys, sep);
    }
  }

  /** `/` followed by plain segments is already normal. */
  lemma NormalAbsolute(xs: seq<string>)
    requires xs != [] && PlainSegments(xs)
    ensures Normalize([Sep] + JoinWith(xs, [Sep])) == [Sep] + JoinWith(xs, [Sep])
  {
    var p := [Sep] + JoinWith(xs, [Sep]);
    assert p[0] == Sep && p[1..] == JoinWith(xs, [Sep]);
    SplitJoin(xs, Sep);
    assert Split(p, Sep) == [""] + xs;
    assert Walk(true, [], [""] + xs) == Walk(true, [], xs) by {
      assert ([""] + xs)[0] == "" && ([""] + xs)[1..] == xs;
    }
    WalkPlains(true, [], xs);
    assert [] + xs == xs;
  }

  /** The last separator of `a/b` is the one before `b` when `b` has none. */
  lemma {:induction false} LastSeparator(a: string, b: string)
    requires Sep !in b
    ensures LastIndexOfChar(a + [Sep] + b, Sep) == Some(|a|)
    decreases |b|
  {
    var s := a + [Sep] + b;
    if b == [] {
      assert s[|s| - 1] == Sep;
    } else {
      assert s[|s| - 1] == b[|b| - 1] != Sep;
      assert s[..|s| - 1] == a + [Sep] + b[..|b| - 1];
      assert Sep !in b[..|b| - 1];
      LastSeparator(a, b[..|b| - 1]);
    }
  }

  /** The directory of `/xs/name` is `/xs`. */
  lemma DirnameAbsolute(xs: seq<string>, name: string)
    requires xs != [] && PlainSegments(xs) && Sep !in name
    ensures Dirname([Sep] + JoinWith(xs + [name], [Sep])) == [Sep] + JoinWith(xs, [Sep])
  {
    JoinWithAppend(xs, [name], [Sep]);
    var a := [Sep] + JoinWith(xs, [Sep]);
    assert [Sep] + JoinWith(xs + [name], [Sep]) == a + [Sep] + name;
    LastSeparator(a, name);
    assert (a + [Sep] + name)[..|a|] == a;
  }

  /** Joining plain segments onto an absolute path of plain segments concatenates them. */
  lemma JoinAbsolute(xs: seq<string>, ys: seq<string>)
    requires xs != [] && ys != [] && PlainSegments(xs) && PlainSegments(ys)
    ensures !IsAbsolute(JoinWith(ys, [Sep]))
    ensures Join([Sep] + JoinWith(xs, [Sep]), JoinWith(ys, [Sep])) == [Sep] + JoinWith(xs + ys, [Sep])
    ensures Resolve([Sep] + JoinWith(xs, [Sep]), JoinWith(ys, [Sep])) == [Sep] + JoinWith(xs + ys, [Sep])
  {
    JoinWithHead(ys, [Sep]);
    JoinWithAppend(xs, ys, [Sep]);
    assert [Sep] + JoinWith(xs, [Sep]) + [Sep] + JoinWith(ys, [Sep]) == [Sep] + JoinWith(xs + ys, [Sep]);
    NormalAbsolute(xs + ys);
  }

  /** Splitting `/p1/p2...` gives an empty first piece, then the pieces. */
  lemma AbsoluteSplit(pieces: seq<string>)
    requires pieces != [] && forall i :: 0 <= i < |pieces| ==> Sep !in pieces[i]
    ensures Split([Sep] + JoinWith(pieces, [Sep]), Sep) == [""] + pieces
  {
    var p := [Sep] + JoinWith(pieces, [Sep]);
    assert p[0] == Sep && p[1..] == JoinWith(pieces, [Sep]);
    SplitJoin(pieces, Sep);
  }

  /** The walk of `/xs/s/../ys` keeps `xs` and `ys`. */
  lemma WalkClimb(xs: seq<string>, s: string, ys: seq<string>)
    requires PlainSegments(xs + [s]) && PlainSegments(ys)
    ensures Walk(true, [], [""] + (xs + [s, ".."] + ys)) == xs + ys
  {
    var pieces := xs + [s, ".."] + ys;
    assert ([""] + pieces)[0] == "" && ([""] + pieces)[1..] == pieces;
    assert pieces == (xs + [s]) + ([".."] + ys);
    WalkAppend(true, [], xs + [s], [".."] + ys);
    WalkPlains(true, [], xs + [s]);
    assert [] + (xs + [s]) == xs + [s];
    assert ([".."] + ys)[0] == ".." && ([".."] + ys)[1..] == ys;
    assert Step(true, xs + [s], "..") == xs;
    WalkPlains(true, xs, ys);
  }

  /** Normalising `/xs/s/../ys` with plain segments drops `s`. */
  lemma ClimbOne(xs: seq<string>, s: string, ys: seq<string>)
    requires PlainSegments(xs + [s]) && PlainSegments(ys) && ys != []
    ensures Normalize([Sep] + JoinWith(xs + [s, ".."] + ys, [Sep])) == [Sep] + JoinWith(xs + ys, [Sep])
  {
    var pieces := xs + [s, ".."] + ys;
    assert Sep !in "..";
    forall i | 0 <= i < |pieces| ensures Sep !in pieces[i] {
      if i < |xs| + 1 {
        assert pieces[i] == (xs + [s])[i];
      } else if i > |xs| + 1 {
        assert pieces[i] == ys[i - |xs| - 2];
      }
    }
    AbsoluteSplit(pieces);
    WalkClimb(xs, s, ys);
  }
}
