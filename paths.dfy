/**
  Slash-separated paths as Go's path/filepath package builds them on a Unix
  host. `Join` is filepath.Join for elements that are already clean: the
  non-empty elements joined with '/'. Go's Join also runs Clean on the result;
  for the clean segments this model admits, Clean leaves the path unchanged.
  `Split` cuts a path at every '/', so that a joined path can be taken apart
  again and compared segment by segment.
*/
module FilePath {

  const Separator: char := '/'

  /** A path element that Clean would leave alone: non-empty, not "." or "..",
      and without a separator inside. */
  predicate ValidSegment(s: string) {
    s != "" && s != "." && s != ".." && Separator !in s
  }

  /** Every element of `segs` is a valid segment. */
  predicate ValidSegments(segs: seq<string>) {
    forall i :: 0 <= i < |segs| ==> ValidSegment(segs[i])
  }

  /** The non-empty elements of `elems`, in order, joined with '/'. A path
      whose first element is non-empty starts with that element. */
  function Join(elems: seq<string>): (r: string)
    ensures |elems| > 0 && elems[0] != "" ==> |elems[0]| <= |r| && r[..|elems[0]|] == elems[0]
  {
    if |elems| == 0 then ""
    else
      var rest := Join(elems[1..]);
      if elems[0] == "" then rest
      else if rest == "" then elems[0]
      else elems[0] + [Separator] + rest
  }

  /** Join gives the empty path exactly when every element is empty. */
  lemma {:induction false} JoinEmptyIff(elems: seq<string>)
    ensures Join(elems) == "" <==> forall i :: 0 <= i < |elems| ==> elems[i] == ""
  {
    if |elems| > 0 {
      JoinEmptyIff(elems[1..]);
      assert forall i :: 1 <= i < |elems| ==> elems[i] == elems[1..][i - 1];
    }
  }

  /** How Join treats the first element of its list. */
  lemma JoinCons(e: string, rest: seq<string>)
    ensures Join([e] + rest) ==
      if e == "" then Join(rest)
      else if Join(rest) == "" then e
      else e + [Separator] + Join(rest)
  {
    assert ([e] + rest)[1..] == rest;
  }

  /** A single element joins to itself. */
  lemma JoinOne(e: string)
    ensures Join([e]) == e
  {
    assert [e][1..] == [];
  }

  /** A non-empty element in front of a non-empty join is separated from it
      by one '/'. */
  lemma JoinPrepend(e: string, rest: seq<string>)
    requires e != "" && Join(rest) != ""
    ensures Join([e] + rest) == e + [Separator] + Join(rest)
  {
    JoinCons(e, rest);
  }

  /** The pieces of `s` between separators; there is always at least one. */
  function Split(s: string): (parts: seq<string>)
    ensures |parts| >= 1
    decreases |s|
  {
    if s == "" then [""]
    else if s[0] == Separator then [""] + Split(s[1..])
    else
      var rest := Split(s[1..]);
      [[s[0]] + rest[0]] + rest[1..]
  }

  /** A string without a separator is its own only piece. */
  lemma {:induction false} SplitSegment(s: string)
    requires Separator !in s
    ensures Split(s) == [s]
    decreases |s|
  {
    if s != "" {
      assert s[0] != Separator;
      assert Separator !in s[1..];
      SplitSegment(s[1..]);
      assert [s[0]] + s[1..] == s;
    }
  }

  /** A configured path prefix that Join with clean segments leaves clean:
      empty, or clean segments separated by single slashes, optionally
      preceded by one leading slash ("modules", "org/modules", "/modules"). */
  predicate CleanPrefix(p: string) {
    var parts := Split(p);
    p == "" || ((parts[0] == "" || ValidSegment(parts[0])) && ValidSegments(parts[1..]))
  }

  /** The segments that a prefix contributes to a joined path: none when empty. */
  function PrefixSegments(p: string): seq<string> {
    if p == "" then [] else Split(p)
  }

  /** How Split treats the first character of a non-empty string. */
  lemma SplitCons(c: char, t: string)
    ensures Split([c] + t) ==
      if c == Separator then [""] + Split(t)
      else [[c] + Split(t)[0]] + Split(t)[1..]
  {
    assert ([c] + t)[1..] == t;
  }

  /** One step of SplitAtSeparator: a character in front of both sides keeps
      the equation. */
  lemma SplitStep(c: char, a: string, b: string)
    requires Split(a + [Separator] + b) == Split(a) + Split(b)
    ensures Split([c] + a + [Separator] + b) == Split([c] + a) + Split(b)
  {
    var t := a + [Separator] + b;
    assert [c] + a + [Separator] + b == [c] + t;
    SplitCons(c, t);
    SplitCons(c, a);
  }

  /** Splitting distributes over a separator: the segments of `a/b` are those
      of `a` followed by those of `b`. */
  lemma {:induction false} SplitAtSeparator(a: string, b: string)
    ensures Split(a + [Separator] + b) == Split(a) + Split(b)
    decreases |a|
  {
    if a == "" {
      assert a + [Separator] + b == [Separator] + b;
      SplitCons(Separator, b);
    } else {
      SplitAtSeparator(a[1..], b);
      SplitStep(a[0], a[1..], b);
      assert [a[0]] + a[1..] == a;
    }
  }

  /** Joining valid segments and splitting the result gives the segments back. */
  lemma {:induction false} SplitJoin(segs: seq<string>)
    requires |segs| >= 1 && ValidSegments(segs)
    ensures Split(Join(segs)) == segs
    decreases |segs|
  {
    if |segs| == 1 {
      assert Join(segs[1..]) == "";
      SplitSegment(segs[0]);
    } else {
      var rest := Join(segs[1..]);
      assert segs[1..][0] == segs[1];
      JoinEmptyIff(segs[1..]);
      assert rest != "";
      assert Join(segs) == segs[0] + [Separator] + rest;
      SplitAtSeparator(segs[0], rest);
      SplitSegment(segs[0]);
      SplitJoin(segs[1..]);
      assert segs == [segs[0]] + segs[1..];
    }
  }

  /** With a prefix in front of valid segments, the segments of the joined path
      are the prefix's segments (none for an empty prefix) followed by them. */
  lemma SplitJoinUnder(prefix: string, segs: seq<string>)
    requires |segs| >= 1 && ValidSegments(segs)
    ensures Split(Join([prefix] + segs)) == PrefixSegments(prefix) + segs
  {
    var elems := [prefix] + segs;
    assert elems[1..] == segs;
    SplitJoin(segs);
    assert segs[0] != "";
    JoinEmptyIff(segs);
    if prefix != "" {
      SplitAtSeparator(prefix, Join(segs));
    }
  }
}
