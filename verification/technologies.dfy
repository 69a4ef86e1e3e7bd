/** The technologies section: the distinct categories of the technology list
    in order of first occurrence (`Array.from(new Set(...))`), and for each
    category the technologies that carry it (`filter`), as a grouping of the
    list. */
module Technologies {

  datatype Technology = Technology(name: string, category: string)

  /** `xs` has no element twice. */
  predicate NoDuplicates<T(==)>(xs: seq<T>) {
    forall i, j :: 0 <= i < j < |xs| ==> xs[i] != xs[j]
  }

  /** The index of the first occurrence of `x` in `xs`. */
  function FirstIndex<T(==)>(xs: seq<T>, x: T): (k: nat)
    requires x in xs
    ensures k < |xs| && xs[k] == x && x !in xs[..k]
  {
    if xs[0] == x then 0
    else
      var k := FirstIndex(xs[1..], x);
      assert xs[..k + 1] == [xs[0]] + xs[1..][..k];
      k + 1
  }

  /** A prefix does not move the first occurrence of anything in it. */
  lemma FirstIndexPrefix<T>(xs: seq<T>, n: nat, x: T)
    requires n <= |xs| && x in xs[..n]
    ensures FirstIndex(xs, x) == FirstIndex(xs[..n], x)
  {
    var k := FirstIndex(xs[..n], x);
    assert xs[..n][..k] == xs[..k];
  }

  /** The distinct elements of `xs` in order of first occurrence: the
      contents of a JavaScript `Set` filled from `xs` in order. */
  function Distinct(xs: seq<string>): (r: seq<string>)
    ensures NoDuplicates(r)
    ensures forall x :: x in r <==> x in xs
    ensures |r| <= |xs|
  {
    if |xs| == 0 then []
    else
      var d := Distinct(xs[..|xs| - 1]);
      var x := xs[|xs| - 1];
      assert xs == xs[..|xs| - 1] + [x];
      if x in d then d else d + [x]
  }

  /** An element seen before the last position keeps its first occurrence
      there. */
  lemma PrefixFirstIndex(xs: seq<string>, y: string)
    requires |xs| > 0 && y in Distinct(xs[..|xs| - 1])
    ensures y in xs
    ensures FirstIndex(xs, y) == FirstIndex(xs[..|xs| - 1], y) < |xs| - 1
  {
    FirstIndexPrefix(xs, |xs| - 1, y);
  }

  /** An element first seen at the last position occurs first there. */
  lemma LastFirstIndex(xs: seq<string>)
    requires |xs| > 0 && xs[|xs| - 1] !in Distinct(xs[..|xs| - 1])
    ensures FirstIndex(xs, xs[|xs| - 1]) == |xs| - 1
  {
    var n := |xs| - 1;
    assert xs[n] !in xs[..n];
  }

  /** One pair of `Distinct(xs)`, given the order of that pair in the
      distinct elements of all but the last element. */
  lemma PairOrder(xs: seq<string>, i: nat, j: nat)
    requires |xs| > 0 && i < j < |Distinct(xs)|
    requires var p := xs[..|xs| - 1]; var d := Distinct(p);
             j < |d| ==> FirstIndex(p, d[i]) < FirstIndex(p, d[j])
    ensures FirstIndex(xs, Distinct(xs)[i]) < FirstIndex(xs, Distinct(xs)[j])
  {
    var n := |xs| - 1;
    var p := xs[..n];
    var d := Distinct(p);
    assert xs == p + [xs[n]];
    DistinctSnoc(p, xs[n]);
    PrefixFirstIndex(xs, d[i]);
    if j < |d| {
      PrefixFirstIndex(xs, d[j]);
    } else {
      LastFirstIndex(xs);
    }
  }

  /** The order of `Distinct` is the order of first occurrence in `xs`. */
  lemma {:induction false} DistinctFirstOccurrenceOrder(xs: seq<string>)
    ensures forall i, j :: 0 <= i < j < |Distinct(xs)| ==>
      FirstIndex(xs, Distinct(xs)[i]) < FirstIndex(xs, Distinct(xs)[j])
  {
    if |xs| > 0 {
      var p := xs[..|xs| - 1];
      DistinctFirstOccurrenceOrder(p);
      forall i, j | 0 <= i < j < |Distinct(xs)|
        ensures FirstIndex(xs, Distinct(xs)[i]) < FirstIndex(xs, Distinct(xs)[j])
      {
        PairOrder(xs, i, j);
      }
    }
  }

  /** The category of every technology, in list order. */
  function CategoryList(ts: seq<Technology>): (cs: seq<string>)
    ensures |cs| == |ts| && forall i :: 0 <= i < |ts| ==> cs[i] == ts[i].category
  {
    seq(|ts|, i requires 0 <= i < |ts| => ts[i].category)
  }

  /** `categories`: the distinct categories, in order of first occurrence. */
  function Categories(ts: seq<Technology>): (cs: seq<string>)
    ensures NoDuplicates(cs)
    ensures forall c :: c in cs <==> exists i :: 0 <= i < |ts| && ts[i].category == c
  {
    var all := CategoryList(ts);
    var cs := Distinct(all);
    assert forall c :: c in all <==> exists i :: 0 <= i < |ts| && ts[i].category == c by {
      forall c ensures c in all <==> exists i :: 0 <= i < |ts| && ts[i].category == c {
        if c in all {
          var i :| 0 <= i < |all| && all[i] == c;
          assert ts[i].category == c;
        }
      }
    }
    cs
  }

  /** The list order of categories is their order of first occurrence. */
  lemma CategoriesInFirstOccurrenceOrder(ts: seq<Technology>)
    ensures forall i, j :: 0 <= i < j < |Categories(ts)| ==>
      FirstIndex(CategoryList(ts), Categories(ts)[i]) < FirstIndex(CategoryList(ts), Categories(ts)[j])
  {
    DistinctFirstOccurrenceOrder(CategoryList(ts));
  }

  /** `g` is `xs` with some elements left out and the rest in their order. */
  predicate IsSubsequence<T(==)>(g: seq<T>, xs: seq<T>)
    decreases |xs|
  {
    |g| == 0 ||
    (|xs| > 0 &&
      ((g[|g| - 1] == xs[|xs| - 1] && IsSubsequence(g[..|g| - 1], xs[..|xs| - 1]))
       || IsSubsequence(g, xs[..|xs| - 1])))
  }

  /** The technologies of one category, in list order: the list's
      technologies of that category and nothing else. */
  function Filter(ts: seq<Technology>, c: string): (g: seq<Technology>)
    ensures forall k :: 0 <= k < |g| ==> g[k].category == c
    ensures forall i :: 0 <= i < |ts| && ts[i].category == c ==> ts[i] in g
    ensures IsSubsequence(g, ts)
    ensures |g| == 0 <==> forall i :: 0 <= i < |ts| ==> ts[i].category != c
  {
    if |ts| == 0 then []
    else
      var n := |ts| - 1;
      var g := Filter(ts[..n], c);
      assert forall i :: 0 <= i < n ==> ts[..n][i] == ts[i];
      if ts[n].category == c then
        assert (g + [ts[n]])[..|g|] == g;
        g + [ts[n]]
      else g
  }

  /** One rendered category block: its heading and its technologies. */
  datatype Group = Group(category: string, members: seq<Technology>)

  /** The block for each of `cs`, in the order of `cs`. */
  function GroupsFor(ts: seq<Technology>, cs: seq<string>): (gs: seq<Group>)
    ensures |gs| == |cs|
    ensures forall k :: 0 <= k < |cs| ==> gs[k] == Group(cs[k], Filter(ts, cs[k]))
  {
    if |cs| == 0 then []
    else GroupsFor(ts, cs[..|cs| - 1]) + [Group(cs[|cs| - 1], Filter(ts, cs[|cs| - 1]))]
  }

  /** The section as rendered: one block per category, in category order. */
  function Groups(ts: seq<Technology>): seq<Group> {
    GroupsFor(ts, Categories(ts))
  }

  /** All blocks' technologies, block after block. */
  function Flatten(gs: seq<Group>): seq<Technology> {
    if |gs| == 0 then [] else Flatten(gs[..|gs| - 1]) + gs[|gs| - 1].members
  }

  lemma FlattenStep(ts: seq<Technology>, cs: seq<string>)
    requires |cs| > 0
    ensures Flatten(GroupsFor(ts, cs)) == Flatten(GroupsFor(ts, cs[..|cs| - 1])) + Filter(ts, cs[|cs| - 1])
  {
    var gs := GroupsFor(ts, cs);
    assert gs[..|gs| - 1] == GroupsFor(ts, cs[..|cs| - 1]);
  }

  /** `[t]` when `b` holds, `[]` otherwise. */
  function OnlyIf(t: Technology, b: bool): seq<Technology> {
    if b then [t] else []
  }

  lemma FilterAppend(p: seq<Technology>, t: Technology, c: string)
    ensures Filter(p + [t], c) == Filter(p, c) + OnlyIf(t, t.category == c)
  {
    assert (p + [t])[..|p|] == p;
  }

  lemma MembershipOfLast(cs: seq<string>, x: string)
    requires NoDuplicates(cs) && |cs| > 0
    ensures NoDuplicates(cs[..|cs| - 1])
    ensures x in cs <==> x in cs[..|cs| - 1] || x == cs[|cs| - 1]
    ensures x in cs[..|cs| - 1] ==> x != cs[|cs| - 1]
  {
    var m := |cs| - 1;
    assert cs == cs[..m] + [cs[m]];
    if x in cs[..m] {
      var i :| 0 <= i < m && cs[..m][i] == x;
      assert cs[i] == x;
    }
  }

  /** Multiset bookkeeping for one step of `FlattenAppend`. */
  lemma MultisetStep(x: seq<Technology>, y: seq<Technology>, a: seq<Technology>, b: seq<Technology>,
                     f: seq<Technology>, e: seq<Technology>, extra: seq<Technology>)
    requires x == a + (f + e) && y == b + f
    requires multiset(a) == multiset(b) + multiset(extra)
    ensures multiset(x) == multiset(y) + multiset(extra + e)
  {
  }

  /** The appended technology is counted once if its category is in the
      prefix or is the last one, which cannot both hold. */
  lemma OnlyIfSplit(t: Technology, inInit: bool, isLast: bool, inAll: bool)
    requires inAll <==> inInit || isLast
    requires !(inInit && isLast)
    ensures OnlyIf(t, inInit) + OnlyIf(t, isLast) == OnlyIf(t, inAll)
  {
  }

  /** A technology appended to the list lands in the block of its category
      (if that block is shown) and in no other. */
  lemma {:induction false} FlattenAppend(p: seq<Technology>, t: Technology, cs: seq<string>)
    requires NoDuplicates(cs)
    ensures multiset(Flatten(GroupsFor(p + [t], cs)))
      == multiset(Flatten(GroupsFor(p, cs))) + multiset(OnlyIf(t, t.category in cs))
  {
    if |cs| > 0 {
      var m := |cs| - 1;
      var c := cs[m];
      var init := cs[..m];
      MembershipOfLast(cs, t.category);
      FlattenAppend(p, t, init);
      FlattenStep(p + [t], cs);
      FlattenStep(p, cs);
      FilterAppend(p, t, c);
      MultisetStep(Flatten(GroupsFor(p + [t], cs)), Flatten(GroupsFor(p, cs)),
                   Flatten(GroupsFor(p + [t], init)), Flatten(GroupsFor(p, init)),
                   Filter(p, c), OnlyIf(t, t.category == c), OnlyIf(t, t.category in init));
      OnlyIfSplit(t, t.category in init, t.category == c, t.category in cs);
    }
  }

  lemma CategoryListSnoc(p: seq<Technology>, t: Technology)
    ensures CategoryList(p + [t]) == CategoryList(p) + [t.category]
  {
  }

  /** Appending a technology adds its category at the end, unless it is
      already listed. */
  lemma CategoriesSnoc(p: seq<Technology>, t: Technology)
    ensures Categories(p + [t])
      == if t.category in Categories(p) then Categories(p) else Categories(p) + [t.category]
  {
    CategoryListSnoc(p, t);
    DistinctSnoc(CategoryList(p), t.category);
  }

  /** A new category's block holds just the appended technology. */
  lemma NewCategoryBlock(p: seq<Technology>, t: Technology)
    requires t.category !in Categories(p)
    ensures Flatten(Groups(p + [t])) == Flatten(GroupsFor(p + [t], Categories(p))) + [t]
  {
    var c := t.category;
    var cp := Categories(p);
    CategoriesSnoc(p, t);
    FlattenStep(p + [t], cp + [c]);
    assert (cp + [c])[..|cp|] == cp;
    FilterAppend(p, t, c);
    assert Filter(p, c) == [];
  }

  /** The blocks partition the list: every technology is shown exactly as
      often as it occurs, each in the block of its own category. */
  lemma {:induction false} GroupsPartition(ts: seq<Technology>)
    ensures multiset(Flatten(Groups(ts))) == multiset(ts)
  {
    if |ts| > 0 {
      var n := |ts| - 1;
      var p := ts[..n];
      var t := ts[n];
      assert ts == p + [t];
      GroupsPartition(p);
      var cp := Categories(p);
      FlattenAppend(p, t, cp);
      CategoriesSnoc(p, t);
      if t.category !in cp {
        NewCategoryBlock(p, t);
      }
    }
  }

  /** Every block is headed by a category of the list, holds only
      technologies of that category, holds all of them, and is not empty. */
  lemma GroupsWellFormed(ts: seq<Technology>)
    ensures forall k :: 0 <= k < |Groups(ts)| ==>
      var g := Groups(ts)[k];
      && g.category == Categories(ts)[k]
      && |g.members| > 0
      && (forall m :: m in g.members ==> m.category == g.category)
      && IsSubsequence(g.members, ts)
  {
    forall k | 0 <= k < |Groups(ts)|
      ensures |Groups(ts)[k].members| > 0
    {
      var c := Categories(ts)[k];
      assert c in Categories(ts);
      var i :| 0 <= i < |ts| && ts[i].category == c;
    }
  }

  /** The technologies the site ships with. */
  const Shipped: seq<Technology> := [
    Technology("React", "Frontend"),
    Technology("Next.js", "Frontend"),
    Technology("TypeScript", "Language"),
    Technology("Node.js", "Backend"),
    Technology("Python", "Backend"),
    Technology("Google Cloud", "Cloud"),
    Technology("Docker", "DevOps"),
    Technology("Kubernetes", "DevOps"),
    Technology("AI Models", "Artificial Intelligence")
  ]

  lemma DistinctSnoc(xs: seq<string>, x: string)
    ensures Distinct(xs + [x]) == if x in Distinct(xs) then Distinct(xs) else Distinct(xs) + [x]
  {
    assert (xs + [x])[..|xs|] == xs;
  }

  /** The shipped category column, read left to right, as a `Set` sees it. */
  const ShippedCategoryList: seq<string> := ["Frontend", "Frontend", "Language", "Backend", "Backend", "Cloud", "DevOps", "DevOps", "Artificial Intelligence"]

  /** What the `Set` holds after each of the shipped categories. */
  const ShippedSetStates: seq<seq<string>> := [
    ["Frontend"],
    ["Frontend"],
    ["Frontend", "Language"],
    ["Frontend", "Language", "Backend"],
    ["Frontend", "Language", "Backend"],
    ["Frontend", "Language", "Backend", "Cloud"],
    ["Frontend", "Language", "Backend", "Cloud", "DevOps"],
    ["Frontend", "Language", "Backend", "Cloud", "DevOps"],
    ["Frontend", "Language", "Backend", "Cloud", "DevOps", "Artificial Intelligence"]
  ]

  /** Each state follows from the previous one by adding the next category
      unless it is already there. */
  lemma ShippedSetStep(k: nat)
    requires 0 < k < |ShippedCategoryList|
    ensures var prev, x := ShippedSetStates[k - 1], ShippedCategoryList[k];
            ShippedSetStates[k] == if x in prev then prev else prev + [x]
  {
    // The six names differ in their first letters.
    var s := ShippedSetStates;
    assert s[8][0][0] == 'F' && s[8][1][0] == 'L' && s[8][2][0] == 'B';
    assert s[8][3][0] == 'C' && s[8][4][0] == 'D' && s[8][5][0] == 'A';
  }

  /** Filling the `Set` from the first `k` shipped categories leaves it in
      the `k`-th state. */
  lemma {:induction false} ShippedSetWalk(k: nat)
    requires 0 < k <= |ShippedCategoryList|
    ensures Distinct(ShippedCategoryList[..k]) == ShippedSetStates[k - 1]
    decreases k
  {
    var cs := ShippedCategoryList;
    assert cs[..k] == cs[..k - 1] + [cs[k - 1]];
    DistinctSnoc(cs[..k - 1], cs[k - 1]);
    if k > 1 {
      ShippedSetWalk(k - 1);
      ShippedSetStep(k - 1);
    }
  }

  /** For the shipped list the blocks appear as Frontend, Language, Backend,
      Cloud, DevOps, Artificial Intelligence. */
  lemma ShippedCategories()
    ensures Categories(Shipped) == ["Frontend", "Language", "Backend", "Cloud", "DevOps", "Artificial Intelligence"]
  {
    assert CategoryList(Shipped) == ShippedCategoryList[..9];
    ShippedSetWalk(9);
  }
}
