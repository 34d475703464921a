/**
 * Small concrete trees that show how `create_tree` lays tests out, including
 * the case where a category segment has the same name as an earlier test.
 */
module Scenarios {
  import opened Upptest
  import opened TreeModel
  import opened InsertFacts
  import StatsFacts
  import CategoryPath

  /** "a.b" splits into its two segments. */
  lemma SplitTwo()
    ensures CategoryPath.Segments("a.b", '.') == ["a", "b"]
  {
    assert CategoryPath.Join(["a", "b"], '.') == "a.b" by {
      assert ["a", "b"][1..] == ["b"];
    }
    CategoryPath.SegmentsJoin(["a", "b"], '.');
  }

  /** Two separators in a row give an empty segment between them: a category named "". */
  lemma SplitEmptyMiddle()
    ensures CategoryPath.Segments("a..b", '.') == ["a", "", "b"]
  {
    assert CategoryPath.Join(["a", "", "b"], '.') == "a..b" by {
      assert ["a", "", "b"][1..] == ["", "b"];
      assert ["", "b"][1..] == ["b"];
    }
    CategoryPath.SegmentsJoin(["a", "", "b"], '.');
  }

  /** A trailing separator adds no empty segment, and an empty category has no segments at all. */
  lemma SplitTrailing()
    ensures CategoryPath.Segments("a.", '.') == ["a"]
    ensures CategoryPath.Segments("", '.') == []
  {
    assert CategoryPath.FindSep("a.", '.') == 1 by {
      assert "a."[1..] == ".";
    }
    assert "a."[..1] == "a" && "a."[2..] == "";
  }

  /** A category without separators is a single segment. */
  lemma OneSegment(c: string)
    requires c != [] && '.' !in c
    ensures CategoryPath.Segments(c, '.') == [c]
  {
    CategoryPath.SegmentsJoin([c], '.');
  }

  /**
   * Two tests in the same category end up as two leaves, in order, under one
   * category node named after it.
   */
  lemma SharedCategory(x: Info, y: Info)
    requires x.category == y.category && x.category != [] && '.' !in x.category
    ensures var t := Build([x, y], '.');
      |t.children| == 1 && t.children[0].name == x.category &&
      t.children[0].children == [Leaf(x), Leaf(y)]
  {
    var c := x.category;
    OneSegment(c);
    assert [c][1..] == [];
    assert [x, y][..1] == [x] && [x][..0] == [];
    var c1 := Category(c).(children := [Leaf(x)]);
    assert Insert(Category(c), x, []) == c1;
    var t1 := Root.(children := [c1]);
    assert Build([x], '.') == Insert(Root, x, [c]) == t1;
    assert FirstMatch(t1.children, c) == 0;
    assert Insert(c1, y, []) == Category(c).(children := [Leaf(x), Leaf(y)]);
  }

  /** A category `p.q` of two separator-free names splits into `p` and `q`. */
  lemma TwoSegments(p: string, q: string)
    requires '.' !in p && '.' !in q && q != []
    ensures CategoryPath.Segments(p + "." + q, '.') == [p, q]
  {
    assert CategoryPath.Join([p, q], '.') == p + "." + q by {
      assert [p, q][1..] == [q];
    }
    CategoryPath.SegmentsJoin([p, q], '.');
  }

  /**
   * Tests in categories `p.q` and `p.r` share one category `p`, which gets
   * two category children `q` and `r` holding one leaf each: every segment,
   * the last one included, becomes a category node.
   */
  lemma SiblingCategories(x: Info, y: Info, p: string, q: string, r: string)
    requires '.' !in p && '.' !in q && '.' !in r && q != [] && r != [] && q != r
    requires x.category == p + "." + q && y.category == p + "." + r
    ensures Build([x, y], '.') ==
      Root.(children := [Category(p).(children := [Category(q).(children := [Leaf(x)]),
                                                   Category(r).(children := [Leaf(y)])])])
  {
    TwoSegments(p, q);
    TwoSegments(p, r);
    FirstInsert(x, p, q);
    assert [x, y][..1] == [x];
    SecondInsert(y, p, q, r, Category(q).(children := [Leaf(x)]));
  }

  lemma FirstInsert(x: Info, p: string, q: string)
    requires CategoryPath.Segments(x.category, '.') == [p, q]
    ensures Build([x], '.') == Root.(children := [Category(p).(children := [Category(q).(children := [Leaf(x)])])])
  {
    assert [x][..0] == [];
    assert [p, q][1..] == [q] && [q][1..] == [];
    var cq := Category(q).(children := [Leaf(x)]);
    assert Insert(Category(q), x, []) == cq;
    assert Insert(Category(p), x, [q]) == Category(p).(children := [cq]);
  }

  lemma SecondInsert(y: Info, p: string, q: string, r: string, cq: Tree)
    requires CategoryPath.Segments(y.category, '.') == [p, r] && cq.name == q != r
    ensures Insert(Root.(children := [Category(p).(children := [cq])]), y, [p, r]) ==
      Root.(children := [Category(p).(children := [cq, Category(r).(children := [Leaf(y)])])])
  {
    assert [p, r][1..] == [r] && [r][1..] == [];
    var p1 := Category(p).(children := [cq]);
    assert FirstMatch([p1], p) == 0;
    assert FirstMatch([cq], r) == 1;
    var cr := Category(r).(children := [Leaf(y)]);
    assert Insert(Category(r), y, []) == cr;
    assert Insert(p1, y, [r]) == Category(p).(children := [cq, cr]);
  }

  /** The tree built from a top-level test `a` followed by a test `b` whose category is `a`'s name. */
  lemma BuildBelowLeaf(a: Info, b: Info)
    requires a.category == [] && b.category == a.name && a.name != [] && '.' !in a.name
    ensures Build([a, b], '.') == Root.(children := [Leaf(a).(children := [Leaf(b)])])
  {
    OneSegment(a.name);
    assert [a.name][1..] == [];
    assert [a, b][..1] == [a] && [a][..0] == [];
    var t1 := Root.(children := [Leaf(a)]);
    assert Build([a], '.') == Insert(Root, a, []) == t1;
    assert FirstMatch(t1.children, a.name) == 0;
    assert Insert(Leaf(a), b, []) == Leaf(a).(children := [Leaf(b)]);
  }

  /** A leaf with a child of its own, alone under the root: the tree holds both tests... */
  lemma LeafHoldsChild(a: Info, b: Info)
    ensures TestsIn(Root.(children := [Leaf(a).(children := [Leaf(b)])])) == multiset{a, b}
  {
    var la := Leaf(a).(children := [Leaf(b)]);
    assert TestsIn(Leaf(b)) == multiset{b};
    assert TestsInAll([Leaf(b)], 1) == TestsInAll([Leaf(b)], 0) + TestsIn(Leaf(b)) == multiset{b};
    assert TestsIn(la) == multiset{a} + multiset{b};
    assert TestsInAll([la], 1) == TestsInAll([la], 0) + TestsIn(la) == multiset{a, b};
    assert TestsIn(Root.(children := [la])) == TestsInAll([la], 1);
  }

  /** ... but its totals count only the leaf itself... */
  lemma LeafCountsAlone(a: Info, b: Info)
    ensures StatsOf(Root.(children := [Leaf(a).(children := [Leaf(b)])])).count == 1
  {
    var la := Leaf(a).(children := [Leaf(b)]);
    var t := Root.(children := [la]);
    StatsFacts.StatsAreTally(t);
    assert Runnable(t) == RunnableAll(t.children, 1) == [] + Runnable(la) == [la];
  }

  /** ... and running everything runs only the leaf itself. */
  lemma LeafRunsAlone(a: Info, b: Info)
    ensures ToRun(Root.(children := [Leaf(a).(children := [Leaf(b)])]), true) == [a]
  {
    var la := Leaf(a).(children := [Leaf(b)]);
    var t := Root.(children := [la]);
    assert ToRun(t, true) == ToRunAll(t.children, 1, true) == [] + ToRun(la, true);
  }

  /**
   * A test registered under category "a" after a test named "a" at the top
   * level is placed below that leaf, since the child lookup matches names of
   * leaves too. `update_stats` and `run_selected` stop at leaves, so the
   * totals count one test although the tree holds two, and "Run all" on the
   * root runs only the first.
   */
  lemma HiddenBelowLeaf(a: Info, b: Info)
    requires a.category == [] && b.category == a.name && a.name != [] && '.' !in a.name
    ensures var t := Build([a, b], '.');
      TestsIn(t) == multiset{a, b} && StatsOf(t).count == 1 && ToRun(t, true) == [a]
  {
    BuildBelowLeaf(a, b);
    LeafHoldsChild(a, b);
    LeafCountsAlone(a, b);
    LeafRunsAlone(a, b);
  }
}
