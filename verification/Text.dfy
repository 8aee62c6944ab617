/**
 * The string and array operations of the JavaScript standard library that the modelled files rely
 * on: `trim`, `split` on one character, `join`, `indexOf` and `lastIndexOf`, `map`, `filter` and
 * `reverse`, each with the laws the other modules use.  A string is a sequence of characters; there
 * is no normalisation.
 */
module Text {

  datatype Option<+T> = None | Some(value: T)

  /** The white space and line terminators removed by `String.prototype.trim`. */
  predicate IsSpace(c: char) {
    || '\t' <= c <= '\r'
    || c == ' '
    || c == '\U{00A0}'
    || c == '\U{1680}'
    || '\U{2000}' <= c <= '\U{200A}'
    || c == '\U{2028}'
    || c == '\U{2029}'
    || c == '\U{202F}'
    || c == '\U{205F}'
    || c == '\U{3000}'
    || c == '\U{FEFF}'
  }

  /** The same characters one by one. */
  lemma SpacesAre(c: char)
    ensures IsSpace(c) <==>
            c in "\U{9}\U{A}\U{B}\U{C}\U{D}\U{20}\U{A0}\U{1680}\U{2000}\U{2001}\U{2002}\U{2003}\U{2004}\U{2005}" ||
            c in "\U{2006}\U{2007}\U{2008}\U{2009}\U{200A}\U{2028}\U{2029}\U{202F}\U{205F}\U{3000}\U{FEFF}"
  {}

  function TrimStart(s: string): string {
    if s != "" && IsSpace(s[0]) then TrimStart(s[1..]) else s
  }

  function TrimEnd(s: string): string {
    if s != "" && IsSpace(s[|s| - 1]) then TrimEnd(s[..|s| - 1]) else s
  }

  function Trim(s: string): string { TrimEnd(TrimStart(s)) }

  /** No surrounding white space. */
  predicate Trimmed(s: string) {
    s == "" || (!IsSpace(s[0]) && !IsSpace(s[|s| - 1]))
  }

  lemma TrimOfTrimmed(s: string)
    requires Trimmed(s)
    ensures Trim(s) == s
  {}

  lemma {:induction false} TrimStartTrims(s: string)
    ensures TrimStart(s) == "" || !IsSpace(TrimStart(s)[0])
  {
    if s != "" && IsSpace(s[0]) { TrimStartTrims(s[1..]); }
  }

  lemma {:induction false} TrimEndTrims(s: string)
    ensures TrimEnd(s) == "" || (!IsSpace(TrimEnd(s)[|TrimEnd(s)| - 1]) && TrimEnd(s)[0] == s[0])
    ensures TrimEnd(s) != "" ==> s != ""
  {
    if s != "" && IsSpace(s[|s| - 1]) { TrimEndTrims(s[..|s| - 1]); }
  }

  lemma TrimIsTrimmed(s: string)
    ensures Trimmed(Trim(s))
  {
    TrimStartTrims(s);
    TrimEndTrims(TrimStart(s));
  }

  lemma TrimIdempotent(s: string)
    ensures Trim(Trim(s)) == Trim(s)
  {
    TrimIsTrimmed(s);
    TrimOfTrimmed(Trim(s));
  }

  /** Position of the first `c`, or the length when there is none. */
  function IndexOf(s: string, c: char): (i: nat)
    ensures i <= |s|
    ensures i < |s| ==> s[i] == c
    ensures c !in s[..i]
    ensures i == |s| <==> c !in s
  {
    if s == "" then 0
    else if s[0] == c then 0
    else
      assert s == [s[0]] + s[1..];
      1 + IndexOf(s[1..], c)
  }

  /** Position of the last `c`, or the length when there is none. */
  function LastIndexOf(s: string, c: char): (i: nat)
    ensures i <= |s|
    ensures i < |s| ==> s[i] == c && c !in s[i + 1..]
    ensures i == |s| <==> c !in s
  {
    if s == "" then 0
    else if s[|s| - 1] == c then |s| - 1
    else
      var front := s[..|s| - 1];
      assert s == front + [s[|s| - 1]];
      var i := LastIndexOf(front, c);
      if i == |front| then |s|
      else
        assert s[i + 1..] == front[i + 1..] + [s[|s| - 1]];
        i
  }

  /** `s.split(c)`: always at least one part, none containing `c`. */
  function Split(s: string, c: char): (parts: seq<string>)
    ensures |parts| >= 1
    ensures forall i :: 0 <= i < |parts| ==> c !in parts[i]
    decreases |s|
  {
    var i := IndexOf(s, c);
    if i == |s| then [s] else [s[..i]] + Split(s[i + 1..], c)
  }

  function Join(parts: seq<string>, c: char): string {
    if parts == [] then ""
    else if |parts| == 1 then parts[0]
    else parts[0] + [c] + Join(parts[1..], c)
  }

  lemma IndexOfFirst(p: string, c: char, q: string)
    requires c !in p
    ensures IndexOf(p + [c] + q, c) == |p|
  {
    var s := p + [c] + q;
    var i := IndexOf(s, c);
    assert s[|p|] == c && s[..|p|] == p;
    assert forall k :: 0 <= k < i ==> s[k] in s[..i];
    assert forall k :: 0 <= k < |p| ==> s[k] in s[..|p|];
  }

  lemma SplitNone(p: string, c: char)
    requires c !in p
    ensures Split(p, c) == [p]
  {}

  lemma SplitOne(p: string, c: char, q: string)
    requires c !in p
    ensures Split(p + [c] + q, c) == [p] + Split(q, c)
  {
    IndexOfFirst(p, c, q);
    var s := p + [c] + q;
    assert s[..|p|] == p && s[|p| + 1..] == q;
  }

  lemma CutAtFirst(s: string, c: char)
    requires c in s
    ensures var i := IndexOf(s, c); s == s[..i] + [c] + s[i + 1..] && c !in s[..i]
  {}

  lemma JoinOne(p: string, c: char, parts: seq<string>)
    requires parts != []
    ensures Join([p] + parts, c) == p + [c] + Join(parts, c)
  {}

  lemma {:induction false} JoinSplit(s: string, c: char)
    ensures Join(Split(s, c), c) == s
    decreases |s|
  {
    if c !in s {
      SplitNone(s, c);
    } else {
      var i := IndexOf(s, c);
      CutAtFirst(s, c);
      SplitOne(s[..i], c, s[i + 1..]);
      JoinSplit(s[i + 1..], c);
      JoinOne(s[..i], c, Split(s[i + 1..], c));
    }
  }

  lemma {:induction false} SplitJoin(parts: seq<string>, c: char)
    requires |parts| >= 1
    requires forall i :: 0 <= i < |parts| ==> c !in parts[i]
    ensures Split(Join(parts, c), c) == parts
    decreases |parts|
  {
    if |parts| == 1 {
      SplitNone(parts[0], c);
    } else {
      assert parts == [parts[0]] + parts[1..];
      JoinOne(parts[0], c, parts[1..]);
      SplitOne(parts[0], c, Join(parts[1..], c));
      SplitJoin(parts[1..], c);
    }
  }

  lemma {:induction false} JoinConcat(p: seq<string>, c: char, q: seq<string>)
    requires p != [] && q != []
    ensures Join(p + q, c) == Join(p, c) + [c] + Join(q, c)
    decreases |p|
  {
    if |p| == 1 {
      assert p == [p[0]];
      JoinOne(p[0], c, q);
    } else {
      var rest := p[1..];
      assert p == [p[0]] + rest && p + q == [p[0]] + (rest + q);
      JoinOne(p[0], c, rest + q);
      JoinOne(p[0], c, rest);
      JoinConcat(rest, c, q);
      Regroup(p[0] + [c], Join(rest, c), [c] + Join(q, c));
      Regroup(p[0] + [c] + Join(rest, c), [c], Join(q, c));
      Regroup(Join(rest, c), [c], Join(q, c));
    }
  }

  lemma Regroup<T>(a: seq<T>, b: seq<T>, d: seq<T>)
    ensures (a + b) + d == a + (b + d)
  {}

  /** Splitting `p + [c] + q` splits both sides independently. */
  lemma SplitConcat(p: string, c: char, q: string)
    ensures Split(p + [c] + q, c) == Split(p, c) + Split(q, c)
  {
    JoinSplit(p, c);
    JoinSplit(q, c);
    JoinConcat(Split(p, c), c, Split(q, c));
    SplitJoin(Split(p, c) + Split(q, c), c);
  }

  function Map<T, U>(f: T -> U, s: seq<T>): (r: seq<U>)
    ensures |r| == |s| && forall i :: 0 <= i < |s| ==> r[i] == f(s[i])
  {
    seq(|s|, i requires 0 <= i < |s| => f(s[i]))
  }

  /** `map` followed by `filter`: every element contributes any number of results, in order. */
  function FlatMap<T, U>(f: T -> seq<U>, s: seq<T>): seq<U> {
    if s == [] then [] else f(s[0]) + FlatMap(f, s[1..])
  }

  lemma FlatMapCons<T, U>(f: T -> seq<U>, x: T, s: seq<T>)
    ensures FlatMap(f, [x] + s) == f(x) + FlatMap(f, s)
  {}

  lemma {:induction false} FlatMapConcat<T, U>(f: T -> seq<U>, p: seq<T>, q: seq<T>)
    ensures FlatMap(f, p + q) == FlatMap(f, p) + FlatMap(f, q)
  {
    if p == [] {
      assert p + q == q;
    } else {
      FlatMapConcat(f, p[1..], q);
      FlatMapCons(f, p[0], p[1..] + q);
      assert p + q == [p[0]] + (p[1..] + q);
      Regroup(f(p[0]), FlatMap(f, p[1..]), FlatMap(f, q));
    }
  }

  lemma FlatMapOne<T, U>(f: T -> seq<U>, x: T)
    ensures FlatMap(f, [x]) == f(x)
  {}

  lemma {:induction false} FlatMapAll<T, U>(f: T -> seq<U>, s: seq<T>, p: U -> bool)
    requires forall i :: 0 <= i < |s| ==> forall k :: 0 <= k < |f(s[i])| ==> p(f(s[i])[k])
    ensures forall i :: 0 <= i < |FlatMap(f, s)| ==> p(FlatMap(f, s)[i])
  {
    if s != [] { FlatMapAll(f, s[1..], p); }
  }

  lemma FlatMapSlice<T, U>(f: T -> seq<U>, s: seq<T>, i: nat, j: nat)
    requires i <= j <= |s|
    ensures FlatMap(f, s[..j]) == FlatMap(f, s[..i]) + FlatMap(f, s[i..j])
  {
    assert s[..j] == s[..i] + s[i..j];
    FlatMapConcat(f, s[..i], s[i..j]);
  }

  lemma FlatMapSnoc<T, U>(f: T -> seq<U>, s: seq<T>, i: nat)
    requires i < |s|
    ensures FlatMap(f, s[..i + 1]) == FlatMap(f, s[..i]) + f(s[i])
  {
    assert s[..i + 1] == s[..i] + [s[i]];
    FlatMapConcat(f, s[..i], [s[i]]);
    FlatMapOne(f, s[i]);
  }

  function Reversed<T>(s: seq<T>): (r: seq<T>)
    ensures |r| == |s| && forall i :: 0 <= i < |s| ==> r[i] == s[|s| - 1 - i]
  {
    seq(|s|, i requires 0 <= i < |s| => s[|s| - 1 - i])
  }

  lemma {:induction false} FlatMapReversed<T, U>(f: T -> seq<U>, s: seq<T>)
    requires forall x :: |f(x)| <= 1
    ensures FlatMap(f, Reversed(s)) == Reversed(FlatMap(f, s))
  {
    if s != [] {
      var x, rest := s[0], s[1..];
      FlatMapReversed(f, rest);
      assert Reversed(s) == Reversed(rest) + [x];
      FlatMapConcat(f, Reversed(rest), [x]);
      FlatMapOne(f, x);
    }
  }
}
