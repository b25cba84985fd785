/** The '/'-separated path strings that travel between the browser client and the
    server: the client joins its segment list with "/" and the server splits the
    string it receives on "/" again. */
module Paths {

  /** `segments.join("/")` */
  function Join(p: seq<string>): (r: string)
    ensures |p| >= 2 ==> '/' in r
  {
    if |p| == 0 then ""
    else if |p| == 1 then p[0]
    else
      var r := p[0] + "/" + Join(p[1..]);
      assert r[|p[0]|] == '/';
      r
  }

  /** `s.split("/")`: every '/' separates two segments, so the result is never empty
      and `"".split("/")` is `[""]`. */
  function Split(s: string): (r: seq<string>)
    ensures |r| >= 1
    ensures forall i :: 0 <= i < |r| ==> '/' !in r[i]
  {
    if s == [] then [""]
    else if s[0] == '/' then [""] + Split(s[1..])
    else
      var t := Split(s[1..]);
      [[s[0]] + t[0]] + t[1..]
  }

  /** The handlers' `path ? path.split('/') : []`: a missing or empty path names the root. */
  function ServerPath(path: string): (r: seq<string>)
    ensures r == [] <==> path == ""
    ensures forall i :: 0 <= i < |r| ==> '/' !in r[i]
  {
    if path == "" then [] else Split(path)
  }

  predicate NonEmptySegments(p: seq<string>)
  {
    forall i :: 0 <= i < |p| ==> p[i] != ""
  }

  predicate SlashFree(p: seq<string>)
  {
    forall i :: 0 <= i < |p| ==> '/' !in p[i]
  }

  /** A segment list that survives the trip through a path string unchanged. */
  predicate WellFormedPath(p: seq<string>)
  {
    NonEmptySegments(p) && SlashFree(p)
  }

  /** Joining what was split gives back the string, for every string. */
  lemma {:induction false} JoinSplit(s: string)
    ensures Join(Split(s)) == s
  {
    if s == [] {
    } else if s[0] == '/' {
      var t := Split(s[1..]);
      JoinSplit(s[1..]);
      assert Split(s) == [""] + t;
      assert ([""] + t)[1..] == t;
      assert s == [s[0]] + s[1..];
    } else {
      var t := Split(s[1..]);
      JoinSplit(s[1..]);
      var r := [[s[0]] + t[0]] + t[1..];
      assert Split(s) == r;
      assert r[1..] == t[1..];
      assert s == [s[0]] + s[1..];
    }
  }

  /** The server sees the client's path again: `Join(ServerPath(s)) == s`. */
  lemma {:induction false} JoinServerPath(s: string)
    ensures Join(ServerPath(s)) == s
  {
    if s != "" {
      JoinSplit(s);
    }
  }

  lemma {:induction false} SplitPlain(a: string)
    requires '/' !in a
    ensures Split(a) == [a]
  {
    if a != [] {
      SplitPlain(a[1..]);
      assert a == [a[0]] + a[1..];
    }
  }

  lemma {:induction false} SplitAfterSegment(a: string, t: string)
    requires '/' !in a
    ensures Split(a + "/" + t) == [a] + Split(t)
  {
    if a == [] {
      assert a + "/" + t == "/" + t;
      assert ("/" + t)[1..] == t;
    } else {
      SplitAfterSegment(a[1..], t);
      var s := a + "/" + t;
      assert s[0] == a[0];
      assert s[1..] == a[1..] + "/" + t;
      assert a == [a[0]] + a[1..];
    }
  }

  /** Splitting what was joined gives back the segments when no segment holds a '/'. */
  lemma {:induction false} SplitJoin(p: seq<string>)
    requires p != [] && SlashFree(p)
    ensures Split(Join(p)) == p
  {
    if |p| == 1 {
      SplitPlain(p[0]);
    } else {
      SplitJoin(p[1..]);
      SplitAfterSegment(p[0], Join(p[1..]));
      assert p == [p[0]] + p[1..];
    }
  }

  /** Only the empty list and the list of one empty segment join to "". */
  lemma {:induction false} JoinEmpty(p: seq<string>)
    ensures Join(p) == "" <==> (p == [] || p == [""])
  {
    if |p| >= 2 {
      assert Join(p)[|p[0]|] == '/';
    }
  }

  /** Round trip of a path through the wire: `ServerPath(Join(p)) == p` for every
      segment list without '/' other than the single empty segment. */
  lemma {:induction false} ServerPathJoin(p: seq<string>)
    requires SlashFree(p) && p != [""]
    ensures ServerPath(Join(p)) == p
  {
    JoinEmpty(p);
    if p != [] {
      SplitJoin(p);
    }
  }

  lemma {:induction false} JoinAppend(a: seq<string>, b: seq<string>)
    requires a != [] && b != []
    ensures Join(a + b) == Join(a) + "/" + Join(b)
  {
    if |a| == 1 {
      assert a + b == [a[0]] + b;
      assert (a + b)[1..] == b;
    } else {
      JoinAppend(a[1..], b);
      assert (a + b)[1..] == a[1..] + b;
    }
  }

  /** How the server builds a child's key: `currentPath ? currentPath + "/" + name : name`. */
  lemma {:induction false} JoinSnoc(segs: seq<string>, n: string)
    requires NonEmptySegments(segs)
    ensures Join(segs + [n]) == if Join(segs) == "" then n else Join(segs) + "/" + n
  {
    JoinEmpty(segs);
    if segs != [] {
      JoinAppend(segs, [n]);
    }
  }

  /** Appending non-empty segments makes the joined string strictly longer. */
  lemma {:induction false} JoinLonger(s: seq<string>, t: seq<string>)
    requires t != [] && NonEmptySegments(t)
    ensures |Join(s + t)| > |Join(s)|
  {
    if s == [] {
      assert s + t == t;
      assert |Join(t)| >= |t[0]|;
    } else {
      JoinAppend(s, t);
    }
  }
}
