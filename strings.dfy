/**
 * String helpers with the behaviour of the JavaScript built-ins the tool relies on:
 * substring search (`includes`, `replace` with a string pattern), `split` on one
 * character, `toLowerCase` restricted to ASCII, and the `<`/`>` ordering of strings.
 */
module Strings {
  import opened Wrappers

  /** True when `t` occurs in `s` at index `i`. */
  predicate OccursAt(s: string, t: string, i: nat) {
    i + |t| <= |s| && s[i..i + |t|] == t
  }

  /** The index of the first occurrence of `t` in `s` at or after `from`. */
  function IndexOfFrom(s: string, t: string, from: nat): (r: Option<nat>)
    requires from <= |s|
    ensures r.Some? ==> from <= r.value && OccursAt(s, t, r.value)
    ensures r.Some? ==> forall j :: from <= j < r.value ==> !OccursAt(s, t, j)
    ensures r.None? ==> forall j :: from <= j <= |s| ==> !OccursAt(s, t, j)
    decreases |s| - from
  {
    if OccursAt(s, t, from) then Some(from)
    else if from == |s| then None
    else IndexOfFrom(s, t, from + 1)
  }

  /** The index of the first occurrence of `t` in `s` (JavaScript `indexOf`). */
  function IndexOf(s: string, t: string): (r: Option<nat>)
    ensures r.Some? ==> OccursAt(s, t, r.value) && forall j :: 0 <= j < r.value ==> !OccursAt(s, t, j)
    ensures r.None? ==> forall j :: 0 <= j <= |s| ==> !OccursAt(s, t, j)
  {
    IndexOfFrom(s, t, 0)
  }

  /** JavaScript `s.includes(t)`. */
  predicate Contains(s: string, t: string) {
    IndexOf(s, t).Some?
  }

  lemma ContainsIff(s: string, t: string)
    ensures Contains(s, t) <==> exists i :: 0 <= i <= |s| && OccursAt(s, t, i)
  {
    if !Contains(s, t) {
      assert forall j :: 0 <= j <= |s| ==> !OccursAt(s, t, j);
    }
  }

  /** JavaScript `s.replace(from, to)` with a string pattern: only the first occurrence is replaced. */
  function ReplaceFirst(s: string, from: string, to: string): (r: string)
    ensures IndexOf(s, from).None? ==> r == s
    ensures IndexOf(s, from).Some? ==>
      var i := IndexOf(s, from).value; r == s[..i] + to + s[i + |from|..]
  {
    match IndexOf(s, from)
    case None => s
    case Some(i) => s[..i] + to + s[i + |from|..]
  }

  /**
   * `replace` changes the first occurrence and nothing else: when `s` is
   * `a + from + b` with no occurrence starting inside `a`, the result is
   * `a + to + b`.
   */
  lemma ReplaceFirstAt(s: string, from: string, to: string, a: string, b: string)
    requires s == a + from + b
    requires forall j :: 0 <= j < |a| ==> !OccursAt(s, from, j)
    ensures ReplaceFirst(s, from, to) == a + to + b
  {
    assert s[|a|..|a| + |from|] == from;
    assert OccursAt(s, from, |a|);
    assert IndexOf(s, from) == Some(|a|);
    assert s[..|a|] == a && s[|a| + |from|..] == b;
  }

  /** JavaScript `s.split(c)` for a one-character separator: never empty, and the pieces never contain `c`. */
  function Split(s: string, c: char): (r: seq<string>)
    ensures |r| >= 1
    ensures forall k :: 0 <= k < |r| ==> c !in r[k]
  {
    if s == [] then [""]
    else if s[0] == c then [""] + Split(s[1..], c)
    else
      var rest := Split(s[1..], c);
      [[s[0]] + rest[0]] + rest[1..]
  }

  /** The pieces on either side of a separator concatenate. */
  lemma {:induction false} SplitAppend(a: string, c: char, b: string)
    ensures Split(a + [c] + b, c) == Split(a, c) + Split(b, c)
  {
    if a == [] {
      assert a + [c] + b == [c] + b;
      assert ([c] + b)[1..] == b;
    } else {
      var tail := a[1..] + [c] + b;
      assert (a + [c] + b)[1..] == tail;
      assert (a + [c] + b)[0] == a[0];
      SplitAppend(a[1..], c, b);
      if a[0] == c {
      } else {
        var rest := Split(tail, c);
        assert rest[0] == Split(a[1..], c)[0];
        assert rest[1..] == Split(a[1..], c)[1..] + Split(b, c);
      }
    }
  }

  /** A string without the separator is one piece. */
  lemma {:induction false} SplitNoSeparator(s: string, c: char)
    requires c !in s
    ensures Split(s, c) == [s]
  {
    if s != [] {
      assert c !in s[1..];
      SplitNoSeparator(s[1..], c);
      assert [s[0]] + s[1..] == s;
    }
  }

  /** Joins pieces with a separator (JavaScript `pieces.join(sep)`). */
  function JoinWith(pieces: seq<string>, sep: string): (r: string)
    ensures |pieces| == 1 ==> r == pieces[0]
    decreases |pieces|
  {
    if pieces == [] then ""
    else if |pieces| == 1 then pieces[0]
    else pieces[0] + sep + JoinWith(pieces[1..], sep)
  }

  /** `join` concatenates: splitting the result on a separator absent from the pieces gives the pieces back. */
  lemma {:induction false} SplitJoin(pieces: seq<string>, c: char)
    requires |pieces| >= 1
    requires forall k :: 0 <= k < |pieces| ==> c !in pieces[k]
    ensures Split(JoinWith(pieces, [c]), c) == pieces
  {
    if |pieces| == 1 {
      SplitNoSeparator(pieces[0], c);
    } else {
      SplitJoin(pieces[1..], c);
      SplitAppend(pieces[0], c, JoinWith(pieces[1..], [c]));
      SplitNoSeparator(pieces[0], c);
      assert [pieces[0]] + pieces[1..] == pieces;
    }
  }

  /** Concatenation of all pieces (JavaScript `pieces.join("")`). */
  function Concat(pieces: seq<string>): (r: string)
    ensures |r| == SumOfLengths(pieces)
  {
    if pieces == [] then "" else pieces[0] + Concat(pieces[1..])
  }

  function SumOfLengths(pieces: seq<string>): nat {
    if pieces == [] then 0 else |pieces[0]| + SumOfLengths(pieces[1..])
  }

  lemma {:induction false} ConcatAppend(a: seq<string>, b: seq<string>)
    ensures Concat(a + b) == Concat(a) + Concat(b)
  {
    if a == [] {
      assert a + b == b;
    } else {
      assert (a + b)[1..] == a[1..] + b;
      ConcatAppend(a[1..], b);
    }
  }

  /** ASCII upper-case letters map to lower case; every other character is kept. */
  function LowerChar(c: char): char {
    if 'A' <= c <= 'Z' then (c as int + 32) as char else c
  }

  /** JavaScript `toLowerCase`, restricted to ASCII: each character on its own. */
  function Lower(s: string): (r: string)
    ensures |r| == |s|
  {
    seq(|s|, i requires 0 <= i < |s| => LowerChar(s[i]))
  }

  predicate IsLower(s: string) {
    Lower(s) == s
  }

  /** Lower-casing is idempotent: every key built with `toLowerCase` is already lower case. */
  lemma LowerIdempotent(s: string)
    ensures IsLower(Lower(s))
  {
    var l := Lower(s);
    assert forall i :: 0 <= i < |l| ==> Lower(l)[i] == l[i];
  }

  lemma LowerAppend(a: string, b: string)
    ensures Lower(a + b) == Lower(a) + Lower(b)
  {
    assert forall i :: 0 <= i < |a + b| ==> Lower(a + b)[i] == (Lower(a) + Lower(b))[i];
  }

  /** Decimal digits of a natural number, as JavaScript prints it in a template literal. */
  function NatToString(n: nat): (r: string)
    ensures |r| >= 1
    ensures forall i :: 0 <= i < |r| ==> '0' <= r[i] <= '9'
  {
    if n < 10 then [DigitChar(n)] else NatToString(n / 10) + [DigitChar(n % 10)]
  }

  function DigitChar(d: nat): (c: char)
    requires d < 10
    ensures '0' <= c <= '9'
  {
    ['0', '1', '2', '3', '4', '5', '6', '7', '8', '9'][d]
  }

  /** JavaScript's `a < b` on strings: lexicographic on characters, a proper prefix first. */
  predicate Less(a: string, b: string)
    decreases |a|
  {
    if b == [] then false
    else if a == [] then true
    else if a[0] != b[0] then a[0] < b[0]
    else Less(a[1..], b[1..])
  }

  lemma {:induction false} LessIrreflexive(a: string)
    ensures !Less(a, a)
    decreases |a|
  {
    if a != [] {
      LessIrreflexive(a[1..]);
    }
  }

  lemma {:induction false} LessTrichotomy(a: string, b: string)
    ensures Less(a, b) || a == b || Less(b, a)
    decreases |a|
  {
    if a != [] && b != [] && a[0] == b[0] {
      LessTrichotomy(a[1..], b[1..]);
      if a[1..] == b[1..] {
        assert a == [a[0]] + a[1..] && b == [b[0]] + b[1..];
      }
    }
  }

  lemma {:induction false} LessAsymmetric(a: string, b: string)
    ensures !(Less(a, b) && Less(b, a))
    decreases |a|
  {
    if a != [] && b != [] && a[0] == b[0] {
      LessAsymmetric(a[1..], b[1..]);
    }
  }

  lemma {:induction false} LessTransitive(a: string, b: string, c: string)
    requires Less(a, b) && Less(b, c)
    ensures Less(a, c)
    decreases |a|
  {
    if a != [] && a[0] == b[0] && b[0] == c[0] {
      LessTransitive(a[1..], b[1..], c[1..]);
    }
  }

  lemma LessTransitiveImplies(a: string, b: string, c: string)
    ensures Less(a, b) && Less(b, c) ==> Less(a, c)
  {
    if Less(a, b) && Less(b, c) {
      LessTransitive(a, b, c);
    }
  }
}
