/**
 * Splitting a test's category string into path segments, with the
 * semantics of repeatedly calling `std::getline(stream, item, sep)` until it
 * fails: each call extracts characters up to the next separator (which it
 * consumes and drops) or the end of the input, and a call fails only when
 * there is nothing left to extract. So the empty string has no segments, a
 * trailing separator adds no empty segment, and two consecutive separators
 * give an empty segment between them.
 */
module CategoryPath {

  /** Index of the first `sep` in `s`, or `|s|` when it has none. */
  function FindSep(s: string, sep: char): (k: nat)
    ensures k <= |s|
  {
    if s == [] then 0
    else if s[0] == sep then 0
    else 1 + FindSep(s[1..], sep)
  }

  /** FindSep stops at the first separator, and only there or at the end. */
  lemma {:induction false} FindSepFirst(s: string, sep: char)
    ensures FindSep(s, sep) <= |s|
    ensures FindSep(s, sep) < |s| ==> s[FindSep(s, sep)] == sep
    ensures forall j :: 0 <= j < FindSep(s, sep) ==> s[j] != sep
  {
    if s != [] && s[0] != sep {
      FindSepFirst(s[1..], sep);
      assert forall j :: 1 <= j < FindSep(s, sep) ==> s[j] == s[1..][j - 1];
    }
  }

  /** The segments successive getline calls extract from `s`. */
  function Segments(s: string, sep: char): seq<string>
    decreases |s|
  {
    if s == [] then []
    else
      var k := FindSep(s, sep);
      if k == |s| then [s] else [s[..k]] + Segments(s[k + 1..], sep)
  }

  /** The segments written back out with one separator between neighbours. */
  function Join(parts: seq<string>, sep: char): string
  {
    if parts == [] then []
    else if |parts| == 1 then parts[0]
    else parts[0] + [sep] + Join(parts[1..], sep)
  }

  predicate EndsWith(s: string, c: char)
  {
    s != [] && s[|s| - 1] == c
  }

  /** No segment contains the separator; only the empty category has no segments. */
  lemma {:induction false} SegmentsShape(s: string, sep: char)
    ensures Segments(s, sep) == [] <==> s == []
    ensures forall p :: p in Segments(s, sep) ==> sep !in p
    decreases |s|
  {
    if s != [] {
      var k := FindSep(s, sep);
      FindSepFirst(s, sep);
      if k < |s| {
        SegmentsShape(s[k + 1..], sep);
      }
    }
  }

  /**
   * Rejoining the segments gives the category back, except that a trailing
   * separator is lost.
   */
  lemma {:induction false} JoinSegments(s: string, sep: char)
    ensures EndsWith(s, sep) ==> Join(Segments(s, sep), sep) + [sep] == s
    ensures !EndsWith(s, sep) ==> Join(Segments(s, sep), sep) == s
    decreases |s|
  {
    if s != [] {
      var k := FindSep(s, sep);
      FindSepFirst(s, sep);
      if k < |s| {
        JoinSegments(s[k + 1..], sep);
        JoinSegmentsStep(s, sep, k);
      }
    }
  }

  /** The inductive step of JoinSegments: a first segment ended by a separator. */
  lemma JoinSegmentsStep(s: string, sep: char, k: nat)
    requires k == FindSep(s, sep) < |s| && s[k] == sep
    requires var rest := s[k + 1..];
      (EndsWith(rest, sep) ==> Join(Segments(rest, sep), sep) + [sep] == rest) &&
      (!EndsWith(rest, sep) ==> Join(Segments(rest, sep), sep) == rest)
    ensures EndsWith(s, sep) ==> Join(Segments(s, sep), sep) + [sep] == s
    ensures !EndsWith(s, sep) ==> Join(Segments(s, sep), sep) == s
  {
    if k + 1 == |s| {
      JoinLastSegment(s, sep, k);
    } else {
      JoinInnerSegment(s, sep, k);
    }
  }

  /** A category whose only separator is its last character. */
  lemma JoinLastSegment(s: string, sep: char, k: nat)
    requires k == FindSep(s, sep) && k + 1 == |s| && s[k] == sep
    ensures EndsWith(s, sep) && Join(Segments(s, sep), sep) + [sep] == s
  {
    assert s[k + 1..] == [];
    assert Segments(s, sep) == [s[..k]];
  }

  /** A separator followed by more text: the tail's rejoining decides the whole. */
  lemma JoinInnerSegment(s: string, sep: char, k: nat)
    requires k == FindSep(s, sep) && k + 1 < |s| && s[k] == sep
    requires var rest := s[k + 1..];
      (EndsWith(rest, sep) ==> Join(Segments(rest, sep), sep) + [sep] == rest) &&
      (!EndsWith(rest, sep) ==> Join(Segments(rest, sep), sep) == rest)
    ensures EndsWith(s, sep) ==> Join(Segments(s, sep), sep) + [sep] == s
    ensures !EndsWith(s, sep) ==> Join(Segments(s, sep), sep) == s
  {
    var head, rest := s[..k], s[k + 1..];
    SegmentsCons(s, sep, k);
    SegmentsShape(rest, sep);
    JoinCons(head, Segments(rest, sep), sep);
    SplitAround(s, k);
    RejoinAround(s, head, rest, Join(Segments(rest, sep), sep), Join(Segments(s, sep), sep), sep);
  }

  lemma SegmentsCons(s: string, sep: char, k: nat)
    requires k == FindSep(s, sep) < |s|
    ensures Segments(s, sep) == [s[..k]] + Segments(s[k + 1..], sep)
  {
  }

  lemma SplitAround(s: string, k: nat)
    requires k < |s|
    ensures s == s[..k] + [s[k]] + s[k + 1..]
  {
  }

  /** Putting `head` and a separator in front of a rejoined tail keeps the trailing-separator rule. */
  lemma RejoinAround(s: string, head: string, rest: string, r: string, whole: string, sep: char)
    requires rest != [] && s == head + [sep] + rest && whole == head + [sep] + r
    requires EndsWith(rest, sep) ==> r + [sep] == rest
    requires !EndsWith(rest, sep) ==> r == rest
    ensures EndsWith(s, sep) ==> whole + [sep] == s
    ensures !EndsWith(s, sep) ==> whole == s
  {
    assert s[|s| - 1] == rest[|rest| - 1];
    if EndsWith(rest, sep) {
      assert head + [sep] + r + [sep] == head + [sep] + (r + [sep]);
    }
  }

  lemma JoinCons(head: string, tail: seq<string>, sep: char)
    requires tail != []
    ensures Join([head] + tail, sep) == head + [sep] + Join(tail, sep)
  {
    assert ([head] + tail)[1..] == tail;
  }

  /**
   * Conversely, splitting a separator-free list of segments written out
   * with separators gives it back, provided its last segment is not empty
   * (getline cannot produce a final empty segment).
   */
  lemma {:induction false} SegmentsJoin(parts: seq<string>, sep: char)
    requires forall p :: p in parts ==> sep !in p
    requires parts != [] ==> parts[|parts| - 1] != []
    ensures Segments(Join(parts, sep), sep) == parts
  {
    if |parts| == 1 {
      NoSepFound(parts[0], sep);
    } else if |parts| > 1 {
      var s := Join(parts, sep);
      var rest := Join(parts[1..], sep);
      assert s == parts[0] + [sep] + rest;
      NoSepFound(parts[0], sep);
      FindSepAfter(parts[0], [sep] + rest, sep);
      assert ([sep] + rest)[0] == sep;
      assert s == parts[0] + ([sep] + rest);
      assert FindSep(s, sep) == |parts[0]| < |s|;
      assert s[|parts[0]| + 1..] == rest;
      assert s[..|parts[0]|] == parts[0];
      assert Segments(s, sep) == [parts[0]] + Segments(rest, sep);
      SegmentsJoin(parts[1..], sep);
      assert parts == [parts[0]] + parts[1..];
    }
  }

  lemma {:induction false} NoSepFound(p: string, sep: char)
    requires sep !in p
    ensures FindSep(p, sep) == |p|
  {
    if p != [] {
      assert p[0] != sep;
      assert sep !in p[1..];
      NoSepFound(p[1..], sep);
    }
  }

  lemma {:induction false} FindSepAfter(p: string, q: string, sep: char)
    requires sep !in p
    ensures FindSep(p + q, sep) == |p| + FindSep(q, sep)
  {
    if p == [] {
      assert p + q == q;
    } else {
      assert p[0] in p;
      var pq := p + q;
      assert pq[0] == p[0] && p[0] != sep;
      assert pq[1..] == p[1..] + q;
      assert FindSep(pq, sep) == 1 + FindSep(pq[1..], sep);
      assert forall x :: x in p[1..] ==> x in p;
      FindSepAfter(p[1..], q, sep);
    }
  }

  /**
   * One `std::getline(stream, item, sep)` call on a stream positioned at
   * `pos`: extract characters up to the next separator or the end, and
   * consume the separator if there is one.
   */
  method GetLine(s: string, pos: nat, sep: char) returns (item: string, next: nat)
    requires pos < |s|
    ensures var k := FindSep(s[pos..], sep);
      item == s[pos..][..k] && next == pos + (if pos + k < |s| then k + 1 else k)
    ensures pos < next <= |s|
  {
    next := pos;
    item := "";
    while next < |s| && s[next] != sep
      invariant pos <= next <= |s|
      invariant item == s[pos..next]
      invariant forall j :: pos <= j < next ==> s[j] != sep
    {
      item := item + [s[next]];
      next := next + 1;
    }
    FindSepIs(s[pos..], next - pos, sep);
    assert item == s[pos..][..next - pos];
    if next < |s| {
      next := next + 1;
    }
  }

  /**
   * The split loop of tree construction: `elems.push_back(item)` while
   * `getline(fullname, item, sep)` succeeds, which is while input is left.
   * GetLine models a call that succeeds; the final, failing call (nothing
   * left to extract) is the loop guard `pos < |category|` turning false.
   */
  method SplitCategory(category: string, sep: char) returns (elems: seq<string>)
    ensures elems == Segments(category, sep)
  {
    elems := [];
    var pos := 0;
    while pos < |category|
      invariant 0 <= pos <= |category|
      invariant elems + Segments(category[pos..], sep) == Segments(category, sep)
      decreases |category| - pos
    {
      var item, next := GetLine(category, pos, sep);
      ghost var rest := category[pos..];
      SegmentsStep(rest, sep);
      assert category[next..] == rest[next - pos..];
      assert elems + [item] + Segments(category[next..], sep) == elems + Segments(rest, sep);
      elems, pos := elems + [item], next;
    }
    assert category[pos..] == [];
  }

  /** One getline call: the first segment, then the segments of what follows the separator. */
  lemma SegmentsStep(s: string, sep: char)
    requires s != []
    ensures var k := FindSep(s, sep);
      Segments(s, sep) == [s[..k]] + Segments(s[if k < |s| then k + 1 else k..], sep)
  {
    var k := FindSep(s, sep);
    if k == |s| {
      assert s[..k] == s;
      assert s[k..] == [];
    }
  }

  /** A position with no separator before it and a separator or the end there is FindSep. */
  lemma FindSepIs(s: string, k: nat, sep: char)
    requires k <= |s|
    requires k < |s| ==> s[k] == sep
    requires forall j :: 0 <= j < k ==> s[j] != sep
    ensures FindSep(s, sep) == k
  {
    FindSepFirst(s, sep);
  }
}
