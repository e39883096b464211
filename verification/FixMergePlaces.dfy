/** Where a merge puts the values: the n-th instance of a counter goes below the n-th node of the counter,
    at every depth, and exactly when this is so. */
module FixMergePlaces {
  import opened Wrappers
  import opened FixGroups
  import opened FixTree
  import opened FixSelfMerge
  import opened FixMergeShape
  import opened FixMergeValues
  import opened FixMergeNodes

  // ---- What it means

  /** Slot k of the siblings holds the items in their places: the first node with a leaf tag has the last
      value of that tag, the body of the n-th instance is below the n-th node of its counter, and there
      are no other values. */
  ghost predicate InPlace(trees: seq<Tree>, items: seq<Item<string>>, counters: set<string>, k: Slot)
    decreases items
  {
    && SlotLeaves(trees, counters, k) == Left(items, |items|)
    && (forall t :: t !in counters ==> NodeValue(trees, t, k) == LastValue(items, |items|, t))
    && forall j :: 0 <= j < |items| && items[j].Inst? ==>
         var node := NthNode(trees, items[j].tok.tag, Ordinal(items, j));
         node.Some? && InPlace(node.value.kids, items[j].body, counters, k)
  }

  /** What is below the n-th node of a counter before the merge */
  function KidsAt(kids: seq<Tree>, tag: string, n: nat): seq<Tree> {
    var node := NthNode(kids, tag, n);
    if node.Some? then node.value.kids else []
  }

  /** On every level that is merged into, the nodes of every counter are next to each other, or there is
      one for every instance. */
  predicate Fits(kids: seq<Tree>, items: seq<Item<string>>, counters: set<string>)
    decreases items
  {
    && (forall c <- counters :: Suffices(kids, items, c))
    && forall j :: 0 <= j < |items| && items[j].Inst? ==>
         Fits(KidsAt(kids, items[j].tok.tag, Ordinal(items, j)), items[j].body, counters)
  }

  /** Instances of one counter have different values. */
  predicate DistinctHere(items: seq<Item<string>>) {
    forall i, j :: 0 <= i < j < |items| && items[i].Inst? && items[j].Inst? && TagOf(items[i]) == TagOf(items[j]) ==>
      Left(items[i].body, |items[i].body|) != Left(items[j].body, |items[j].body|)
  }

  predicate Distinct(items: seq<Item<string>>) {
    DistinctHere(items) && forall item <- items :: item.Inst? ==> Distinct(item.body)
  }

  // ---- Scattered nodes

  lemma {:induction false} CountAtMost(kids: seq<Tree>, tag: string, p: nat)
    requires forall l :: p <= l < |kids| ==> kids[l].tag != tag
    ensures CountTag(kids, tag) <= p
  {
    hide CountTag;
    if kids == [] || p == 0 {
      CountTagZero(kids, tag);
    } else {
      CountTagFirst(kids, tag);
      CountAtMost(kids[1..], tag, p - 1);
    }
  }

  lemma {:induction false} Packed(kids: seq<Tree>, tag: string)
    requires forall l :: CountTag(kids, tag) <= l < |kids| ==> kids[l].tag != tag
    ensures forall l :: 0 <= l < CountTag(kids, tag) ==> kids[l].tag == tag
  {
    hide CountTag, FirstWithTag;
    if kids == [] {
      CountTagZero(kids, tag);
    } else {
      CountTagFirst(kids, tag);
      if kids[0].tag == tag {
        Packed(kids[1..], tag);
        assert forall l :: 1 <= l < |kids| ==> kids[l] == kids[1..][l - 1];
      } else if CountTag(kids, tag) > 0 {
        CountAtMost(kids[1..], tag, CountTag(kids, tag) - 1);
      }
    }
  }

  /** Nodes that are apart reach behind the position where further ones are inserted. */
  lemma {:induction false} ApartReachesBehind(kids: seq<Tree>, tag: string)
    requires !OneRun(kids, tag)
    ensures exists l :: InsertPosition(kids, tag) <= l < |kids| && kids[l].tag == tag
    ensures CountTag(kids, tag) > 0
  {
    hide CountTag, OneRun;
    if forall l :: InsertPosition(kids, tag) <= l < |kids| ==> kids[l].tag != tag {
      PackedIsRun(kids, tag);
    }
    CountTagZero(kids, tag);
    if CountTag(kids, tag) == 0 {
      NoneIsRun(kids, tag);
    }
  }

  lemma {:induction false} NoneIsRun(kids: seq<Tree>, tag: string)
    requires forall l :: 0 <= l < |kids| ==> kids[l].tag != tag
    ensures OneRun(kids, tag)
  {
  }

  lemma {:induction false} PackedIsRun(kids: seq<Tree>, tag: string)
    requires forall l :: InsertPosition(kids, tag) <= l < |kids| ==> kids[l].tag != tag
    ensures OneRun(kids, tag)
  {
    hide CountTag;
    if kids != [] {
      CountTagFirst(kids, tag);
      assert forall l :: 1 <= l < |kids| ==> kids[l] == kids[1..][l - 1];
      if kids[0].tag == tag {
        Packed(kids, tag);
      } else {
        PackedIsRun(kids[1..], tag);
        ConsKeepsRun(kids, tag);
      }
    }
  }

  lemma {:induction false} ConsKeepsRun(kids: seq<Tree>, tag: string)
    requires kids != [] && kids[0].tag != tag && OneRun(kids[1..], tag)
    ensures OneRun(kids, tag)
  {
    var rest := kids[1..];
    forall i, j | 0 <= i < j < |kids| && kids[i].tag == tag && kids[j].tag == tag
      ensures forall l :: i <= l <= j ==> kids[l].tag == tag
    {
      assert rest[i - 1].tag == tag && rest[j - 1].tag == tag;
      assert forall l :: i <= l <= j ==> kids[l] == rest[l - 1];
    }
  }

  lemma {:induction false} RunWithoutNode(kids: seq<Tree>, i: nat, t: Tree, tag: string)
    requires i <= |kids| && OneRun(kids[..i] + [t] + kids[i..], tag)
    ensures OneRun(kids, tag)
  {
    var after := kids[..i] + [t] + kids[i..];
    assert forall l :: 0 <= l < |kids| ==> kids[l] == after[if l < i then l else l + 1];
    forall x, y | 0 <= x < y < |kids| && kids[x].tag == tag && kids[y].tag == tag
      ensures forall l :: x <= l <= y ==> kids[l].tag == tag
    {
      var x', y' := if x < i then x else x + 1, if y < i then y else y + 1;
      assert after[x'].tag == tag && after[y'].tag == tag;
    }
  }

  lemma {:induction false} InsertKeepsApart(kids: seq<Tree>, i: nat, t: Tree, tag: string)
    requires i <= |kids| && !OneRun(kids, tag)
    ensures !OneRun(kids[..i] + [t] + kids[i..], tag)
  {
    hide OneRun;
    if OneRun(kids[..i] + [t] + kids[i..], tag) {
      RunWithoutNode(kids, i, t, tag);
    }
  }

  lemma {:induction false} PutKeepsApart(kids: seq<Tree>, n: nat, node: Tree, tag: string)
    requires !OneRun(kids, tag)
    ensures !OneRun(Put(kids, n, node), tag)
  {
    hide OneRun, InsertPosition, NthWithTag;
    if NthWithTag(kids, node.tag, n).Some? {
      if OneRun(Put(kids, n, node), tag) {
        SameTagsSameRun(Put(kids, n, node), kids, tag);
      }
    } else {
      InsertKeepsApart(kids, InsertPosition(kids, node.tag), node, tag);
    }
  }

  lemma {:induction false} SetLeafKeepsApart(kids: seq<Tree>, tok: Token<string>, tag: string, k: Slot)
    requires k > 0 && !OneRun(kids, tag)
    ensures !OneRun(SetLeaf(kids, tok, k), tag)
  {
    hide OneRun, SetLeaf, FirstWithTag;
    SetLeafShape(kids, tok, k);
    if FirstWithTag(kids, tok.tag) < |kids| {
      if OneRun(SetLeaf(kids, tok, k), tag) {
        SameTagsSameRun(SetLeaf(kids, tok, k), kids, tag);
      }
    } else {
      InsertKeepsApart(kids, |kids|, NewNode(tok.tag, k, tok.val), tag);
    }
  }

  lemma {:induction false} InsertedInFront(kids: seq<Tree>, i: nat, t: Tree, l: nat)
    requires i <= l < |kids| && kids[l].tag == t.tag
    ensures CountTag(kids, t.tag) > 0
    ensures NthNode(kids[..i] + [t] + kids[i..], t.tag, CountTag(kids, t.tag) + 1) ==
            NthNode(kids, t.tag, CountTag(kids, t.tag))
  {
    hide NthNode, CountTag, FirstWithTag, NthWithTag;
    var after := kids[..i] + [t] + kids[i..];
    var n := CountTag(kids, t.tag);
    TagCounted(kids, t.tag, l);
    NthNodeStep(after, t.tag, n + 1);
    if i == 0 {
      assert after[0] == t && after[1..] == kids;
    } else {
      InsertedTail(kids, i, t);
      assert kids[1..][l - 1] == kids[l];
      InsertedInFront(kids[1..], i - 1, t, l - 1);
      CountTagFirst(kids, t.tag);
      NthNodeStep(kids, t.tag, n);
    }
  }

  lemma {:induction false} TagCounted(kids: seq<Tree>, tag: string, l: nat)
    requires l < |kids| && kids[l].tag == tag
    ensures CountTag(kids, tag) > 0
  {
    CountTagZero(kids, tag);
  }

  /** When the nodes of a counter are apart, a new node leaves the last one last. */
  lemma {:induction false} PutBeforeLast(kids: seq<Tree>, n: nat, node: Tree)
    requires !OneRun(kids, node.tag) && n == CountTag(kids, node.tag) + 1
    ensures n > 1 && NthNode(Put(kids, n, node), node.tag, n) == NthNode(kids, node.tag, n - 1)
  {
    hide OneRun, InsertPosition, NthWithTag, CountTag, FirstWithTag;
    NodeThere(kids, node.tag, n);
    ApartReachesBehind(kids, node.tag);
    var l :| InsertPosition(kids, node.tag) <= l < |kids| && kids[l].tag == node.tag;
    InsertedInFront(kids, InsertPosition(kids, node.tag), node, l);
  }

  lemma {:induction false} InstanceNumber(items: seq<Item<string>>, d: nat, c: string, n: nat) returns (j: nat)
    requires d <= |items| && 0 < n <= CountOf(CountsAfter(items, d), c)
    ensures j < d && items[j].Inst? && items[j].tok.tag == c && Ordinal(items, j) == n
  {
    j := LastInstance(items, d, c);
    if n < Ordinal(items, j) {
      j := InstanceNumber(items, j, c, n);
    }
  }

  lemma {:induction false} NumbersDiffer(items: seq<Item<string>>, i: nat, j: nat)
    requires i < |items| && j < |items| && items[i].Inst? && items[j].Inst? && items[i].tok.tag == items[j].tok.tag
    requires Ordinal(items, i) == Ordinal(items, j)
    ensures i == j
  {
    if i < j {
      OrdinalBelow(items, i, j);
    } else if j < i {
      OrdinalBelow(items, j, i);
    }
  }

  /** While `n` nodes of the counter are apart: there are never more than that, or than instances, and from
      instance number n on, instance `jn`, the last node has its values. */
  ghost predicate Stuck(kids: seq<Tree>, items: seq<Item<string>>, d: nat, n: nat, jn: nat, counters: set<string>,
          k: Slot)
    requires d <= |items| && jn < |items| && items[jn].Inst?
  {
    var c := items[jn].tok.tag;
    var met := CountOf(CountsAfter(items, d), c);
    && !OneRun(kids, c) && CountTag(kids, c) == (if met <= n then n else met)
    && (met >= n ==>
          var last := NthNode(kids, c, CountTag(kids, c));
          last.Some? && SlotLeaves(last.value.kids, counters, k) == Left(items[jn].body, |items[jn].body|))
  }

  lemma {:induction false} NodeAtEmpty(kids: seq<Tree>, items: seq<Item<string>>, d: nat, counters: set<string>,
          k: Slot)
    requires d < |items| && items[d].Inst? && items[d].tok.tag in counters && Merging(kids, items, d, counters, k)
    ensures SlotEmpty(NodeAt(kids, items[d].tok, Ordinal(items, d), k).kids, k)
  {
    hide SlotLeaves, Left, LaterEmpty, SlotEmpty, NthWithTag, CountsAfter;
    var tag, n := items[d].tok.tag, Ordinal(items, d);
    MergingMeans(kids, items, d, counters, k);
    NoneEmpty(k);
    if NthWithTag(kids, tag, n).Some? {
      var i := NthWithTag(kids, tag, n).value;
      NthIsEmpty(kids, tag, n, i, kids[i], k);
    }
  }

  /** The body of an instance, merged into its node, leaves its values there. */
  lemma {:induction false} NodeHolds(kids: seq<Tree>, items: seq<Item<string>>, d: nat, counters: set<string>, k: Slot)
    requires k > 0 && d < |items| && items[d].Inst?
    requires Separated(items, counters) && Merging(kids, items, d, counters, k)
    ensures SlotLeaves(MergedNode(kids, items, d, k).kids, counters, k) == Left(items[d].body, |items[d].body|)
  {
    hide SlotLeaves, Left, Merging, Merge, SlotEmpty, NodeAt, Ordinal, Separated;
    SeparatedAt(items, counters, d);
    NodeAtEmpty(kids, items, d, counters, k);
    MergeHolds(NodeAt(kids, items[d].tok, Ordinal(items, d), k).kids, items[d].body, counters, k);
  }

  lemma {:induction false} MergeHolds(kids: seq<Tree>, items: seq<Item<string>>, counters: set<string>, k: Slot)
    requires k > 0 && Separated(items, counters) && SlotEmpty(kids, k)
    ensures var merged := Merge(kids, items, map[], k);
            SlotLeaves(merged, counters, k) == Left(items, |items|) && Merging(merged, items, |items|, counters, k)
  {
    hide SlotLeaves, Left, Merging, Merge, SlotEmpty, Separated;
    EmptyIsMerging(kids, items, counters, k);
    MergeLeaves(kids, items, 0, counters, k);
    NoCounts(items);
    assert items[0..] == items;
  }

  lemma {:induction false} LeafStaysStuck(kids: seq<Tree>, items: seq<Item<string>>, d: nat, n: nat, jn: nat,
          counters: set<string>, k: Slot)
    requires k > 0 && d < |items| && items[d].Leaf? && jn < |items| && items[jn].Inst? && n > 0
    requires Separated(items, counters) && Stuck(kids, items, d, n, jn, counters, k)
    ensures Stuck(SetLeaf(kids, items[d].tok, k), items, d + 1, n, jn, counters, k)
  {
    hide SetLeaf, SlotLeaves, Left, OneRun, CountTag, NthNode, CountsAfter, Separated;
    var c := items[jn].tok.tag;
    SeparatedAt(items, counters, d);
    SeparatedAt(items, counters, jn);
    CountsStep(items, d);
    SetLeafKeepsApart(kids, items[d].tok, c, k);
    SetLeafKeepsCount(kids, items[d].tok, c, k);
    SetLeafKeepsNth(kids, items[d].tok, c, if CountTag(kids, c) > 0 then CountTag(kids, c) else 1, k);
  }

  lemma {:induction false} InstStaysStuck(kids: seq<Tree>, items: seq<Item<string>>, d: nat, n: nat, jn: nat,
          counters: set<string>, k: Slot)
    requires k > 0 && d < |items| && items[d].Inst? && jn < |items| && items[jn].Inst? && Ordinal(items, jn) == n
    requires Separated(items, counters)
    requires Stuck(kids, items, d, n, jn, counters, k) && Merging(kids, items, d, counters, k)
    ensures Stuck(MergeItem(kids, items[d], CountsAfter(items, d), k), items, d + 1, n, jn, counters, k)
  {
    hide MergeItem, SlotLeaves, Left, OneRun, CountTag, NthNode, CountsAfter, Separated;
    hide Put, Merging, Merge, MergedNode;
    var c, m := items[jn].tok.tag, Ordinal(items, d);
    var node := MergedNode(kids, items, d, k);
    MergedNodeTag(kids, items, d, k);
    ItemIsPut(kids, items, d, k);
    CountsStep(items, d);
    PutKeepsApart(kids, m, node, c);
    PutCount(kids, m, node, c);
    if items[d].tok.tag != c {
      PutOtherNth(kids, m, node, c, CountTag(kids, c));
    } else if m < n {
    } else if m == n {
      NumbersDiffer(items, d, jn);
      NodeHolds(kids, items, d, counters, k);
      PutNth(kids, m, node, c, m);
    } else {
      PutBeforeLast(kids, m, node);
    }
  }

  lemma {:induction false} MergedNodeTag(kids: seq<Tree>, items: seq<Item<string>>, d: nat, k: Slot)
    requires d < |items| && items[d].Inst?
    ensures MergedNode(kids, items, d, k).tag == items[d].tok.tag
  {
  }

  lemma {:induction false} ItemIsPut(kids: seq<Tree>, items: seq<Item<string>>, d: nat, k: Slot)
    requires k > 0 && d < |items| && items[d].Inst?
    ensures MergeItem(kids, items[d], CountsAfter(items, d), k) ==
            Put(kids, Ordinal(items, d), MergedNode(kids, items, d, k))
  {
    hide MergeItem, Put, Merge, NodeAt;
    MergeItemIsPut(kids, items[d].tok, items[d].body, CountsAfter(items, d), k);
  }

  lemma {:induction false} MergeStaysStuck(kids: seq<Tree>, items: seq<Item<string>>, d: nat, n: nat, jn: nat,
          counters: set<string>, k: Slot)
    requires k > 0 && d <= |items| && jn < |items| && items[jn].Inst? && Ordinal(items, jn) == n
    requires Separated(items, counters)
    requires Stuck(kids, items, d, n, jn, counters, k) && Merging(kids, items, d, counters, k)
    ensures Stuck(Merge(kids, items[d..], CountsAfter(items, d), k), items, |items|, n, jn, counters, k)
    decreases |items| - d
  {
    hide Merge, CountsAfter, Stuck, MergeItem, Separated, Merging, Ordinal;
    MergeRest(kids, items, d, k);
    if d < |items| {
      MergeItemKeepsMerging(kids, items, d, counters, k);
      if items[d].Leaf? {
        LeafStaysStuck(kids, items, d, n, jn, counters, k);
        MergeLeafItem(kids, items[d].tok, CountsAfter(items, d), k);
      } else {
        InstStaysStuck(kids, items, d, n, jn, counters, k);
      }
      MergeStaysStuck(MergeItem(kids, items[d], CountsAfter(items, d), k), items, d + 1, n, jn, counters, k);
    }
  }

  /** When the nodes of a counter are apart and there are more instances than nodes, new nodes are inserted
      in front of the last one. It stays the last one, so that the number of the last instance finds the
      values of the instance `jn` that was merged into it. */
  lemma {:induction false} LastNodeStaysLast(kids: seq<Tree>, items: seq<Item<string>>, counters: set<string>,
          c: string, k: Slot)
    returns (jn: nat, jm: nat)
    requires k > 0 && Separated(items, counters) && SlotEmpty(kids, k)
    requires !OneRun(kids, c) && CountTag(kids, c) < Instances(items, c)
    ensures jn < |items| && items[jn].Inst? && items[jn].tok.tag == c && Ordinal(items, jn) == CountTag(kids, c)
    ensures jm < |items| && items[jm].Inst? && items[jm].tok.tag == c && Ordinal(items, jm) == Instances(items, c)
    ensures jn != jm
    ensures var last := NthNode(Merge(kids, items, map[], k), c, Instances(items, c));
            last.Some? && SlotLeaves(last.value.kids, counters, k) == Left(items[jn].body, |items[jn].body|)
  {
    hide Merge, CountsAfter, MergeItem, Separated, Merging, SlotEmpty, OneRun, CountTag, SlotLeaves, Left, NthNode;
    var n := CountTag(kids, c);
    ApartReachesBehind(kids, c);
    jn := InstanceNumber(items, |items|, c, n);
    jm := InstanceNumber(items, |items|, c, Instances(items, c));
    EmptyIsMerging(kids, items, counters, k);
    NoCounts(items);
    assert CountOf(CountsAfter(items, 0), c) == 0;
    MergeStaysStuck(kids, items, 0, n, jn, counters, k);
    assert items[0..] == items;
  }

  lemma {:induction false} ScatteredMisplaces(kids: seq<Tree>, items: seq<Item<string>>, counters: set<string>,
          c: string, k: Slot)
    requires k > 0 && Separated(items, counters) && SlotEmpty(kids, k) && DistinctHere(items)
    requires !Suffices(kids, items, c)
    ensures !InPlace(Merge(kids, items, map[], k), items, counters, k)
  {
    hide Merge, Separated, SlotEmpty, OneRun, CountTag, SlotLeaves, Left, NthNode, Instances, Ordinal;
    var jn, jm := LastNodeStaysLast(kids, items, counters, c, k);
    assert TagOf(items[jn]) == TagOf(items[jm]);
    var last := NthNode(Merge(kids, items, map[], k), c, Instances(items, c));
    if InPlace(Merge(kids, items, map[], k), items, counters, k) {
      InPlaceBelow(Merge(kids, items, map[], k), items, jm, counters, k);
    }
  }

  lemma {:induction false} InPlaceBelow(trees: seq<Tree>, items: seq<Item<string>>, j: nat, counters: set<string>,
          k: Slot)
    requires InPlace(trees, items, counters, k) && j < |items| && items[j].Inst?
    ensures var node := NthNode(trees, items[j].tok.tag, Ordinal(items, j));
            node.Some? && InPlace(node.value.kids, items[j].body, counters, k)
            && SlotLeaves(node.value.kids, counters, k) == Left(items[j].body, |items[j].body|)
  {
    hide SlotLeaves, Left, NodeValue, LastValue, NthNode, Ordinal;
  }

  // ---- The exact condition

  lemma {:induction false} KidsAtEmpty(kids: seq<Tree>, tag: string, n: nat, k: Slot)
    requires SlotEmpty(kids, k)
    ensures SlotEmpty(KidsAt(kids, tag, n), k)
  {
    if NthNode(kids, tag, n).Some? {
      assert NthNode(kids, tag, n).value in kids;
    }
  }

  lemma {:induction false} MergedNodeKids(kids: seq<Tree>, items: seq<Item<string>>, j: nat, k: Slot)
    requires j < |items| && items[j].Inst?
    ensures MergedNode(kids, items, j, k).kids ==
            Merge(KidsAt(kids, items[j].tok.tag, Ordinal(items, j)), items[j].body, map[], k)
  {
    hide Merge, NthNode, Ordinal;
  }

  lemma {:induction false} LevelInPlace(trees: seq<Tree>, items: seq<Item<string>>, counters: set<string>, k: Slot)
    requires Merging(trees, items, |items|, counters, k)
    ensures SlotLeaves(trees, counters, k) == Left(items, |items|)
    ensures forall t :: t !in counters ==> NodeValue(trees, t, k) == LastValue(items, |items|, t)
  {
    hide SlotLeaves, Left, NodeValue, LastValue, LaterEmpty;
  }

  lemma {:induction false} InPlaceIs(trees: seq<Tree>, kids: seq<Tree>, items: seq<Item<string>>,
          counters: set<string>, k: Slot)
    requires Merging(trees, items, |items|, counters, k)
    requires forall j :: 0 <= j < |items| && items[j].Inst? ==>
               NthNode(trees, items[j].tok.tag, Ordinal(items, j)) == Some(MergedNode(kids, items, j, k))
    ensures InPlace(trees, items, counters, k) <==>
            forall j :: 0 <= j < |items| && items[j].Inst? ==>
              InPlace(MergedNode(kids, items, j, k).kids, items[j].body, counters, k)
  {
    hide SlotLeaves, Left, NodeValue, LastValue, NthNode, Ordinal, MergedNode, Merging;
    LevelInPlace(trees, items, counters, k);
  }

  /** Items read into siblings whose slot k is empty are in their places if, on every level, the nodes of
      every counter are next to each other or numerous enough; and only then, unless two instances of one
      counter have the same values. */
  lemma {:induction false} MergeInPlace(kids: seq<Tree>, items: seq<Item<string>>, counters: set<string>, k: Slot)
    requires k > 0 && Separated(items, counters) && SlotEmpty(kids, k)
    ensures Fits(kids, items, counters) ==> InPlace(Merge(kids, items, map[], k), items, counters, k)
    ensures Distinct(items) && InPlace(Merge(kids, items, map[], k), items, counters, k) ==> Fits(kids, items, counters)
    decreases items
  {
    hide Merge, Merging, InPlace, SlotEmpty, Suffices, MergedNode, KidsAt, Ordinal, NthNode, DistinctHere;
    hide Separated, SlotLeaves, Left;
    if forall c <- counters :: Suffices(kids, items, c) {
      MergeHolds(kids, items, counters, k);
      MergedNodes(kids, items, counters, k);
      InPlaceIs(Merge(kids, items, map[], k), kids, items, counters, k);
      forall j | 0 <= j < |items| && items[j].Inst?
        ensures var below := KidsAt(kids, items[j].tok.tag, Ordinal(items, j));
                var merged := MergedNode(kids, items, j, k).kids;
                (Fits(below, items[j].body, counters) ==> InPlace(merged, items[j].body, counters, k))
                && (Distinct(items) && InPlace(merged, items[j].body, counters, k) ==>
                      Fits(below, items[j].body, counters))
      {
        assert items[j] in items;
        SeparatedAt(items, counters, j);
        KidsAtEmpty(kids, items[j].tok.tag, Ordinal(items, j), k);
        MergedNodeKids(kids, items, j, k);
        MergeInPlace(KidsAt(kids, items[j].tok.tag, Ordinal(items, j)), items[j].body, counters, k);
      }
    } else if DistinctHere(items) {
      var c :| c in counters && !Suffices(kids, items, c);
      ScatteredMisplaces(kids, items, counters, c, k);
    }
  }

  // ---- Repeating groups

  lemma {:induction false} ShapedNodes(kids: seq<Tree>, groups: Groups<string>, c: string, n: nat)
    requires TreeShape(kids, groups) && c in groups
    ensures TreeShape(KidsAt(kids, c, n), groups) && forall tag :: OneRun(KidsAt(kids, c, n), tag)
  {
    hide OneRun, NthWithTag;
    if NthNode(kids, c, n).Some? {
      var node := NthNode(kids, c, n).value;
      assert node in kids;
      KidsShapeIsRuns(node.kids, groups, groups[c]);
    } else {
      forall tag
        ensures OneRun([], tag)
      {
        NoneIsRun([], tag);
      }
    }
  }

  /** In a tree of the prescribed shape only the top level can fail to fit. */
  lemma {:induction false} ShapedFits(kids: seq<Tree>, items: seq<Item<string>>, groups: Groups<string>)
    requires TreeShape(kids, groups) && Separated(items, groups.Keys)
    ensures Fits(kids, items, groups.Keys) <==> forall c <- groups.Keys :: Suffices(kids, items, c)
    decreases items
  {
    hide OneRun, KidsAt, TreeShape, Ordinal, Instances, Separated;
    if forall c <- groups.Keys :: Suffices(kids, items, c) {
      forall j | 0 <= j < |items| && items[j].Inst?
        ensures Fits(KidsAt(kids, items[j].tok.tag, Ordinal(items, j)), items[j].body, groups.Keys)
      {
        assert items[j] in items;
        SeparatedAt(items, groups.Keys, j);
        ShapedNodes(kids, groups, items[j].tok.tag, Ordinal(items, j));
        ShapedFits(KidsAt(kids, items[j].tok.tag, Ordinal(items, j)), items[j].body, groups);
      }
    }
  }

  /** A message merged into an empty slot of a tree of the prescribed shape: every value is in its place, at
      every depth, if the top-level nodes of every counter are next to each other or there is one for
      every top-level instance; and only then, unless two of these instances have the same values. */
  lemma {:induction false} MergePlaces(kids: seq<Tree>, toks: seq<Token<string>>, groups: Groups<string>, k: Slot)
    requires k > 0 && SlotEmpty(kids, k) && TreeShape(kids, groups)
    ensures var items := Parse(toks, groups, 0, None).items;
            var merged := Merge(kids, items, map[], k);
            ((forall c <- groups.Keys :: Suffices(kids, items, c)) ==> InPlace(merged, items, groups.Keys, k))
            && (DistinctHere(items) && InPlace(merged, items, groups.Keys, k) ==>
                  forall c <- groups.Keys :: Suffices(kids, items, c))
  {
    hide Parse, Merge, InPlace, TreeShape, Suffices, Separated, Shaped, SlotEmpty, DistinctHere, Fits;
    var items := Parse(toks, groups, 0, None).items;
    ParseShapes(toks, groups, 0, None);
    ShapedFits(kids, items, groups);
    MergeInPlace(kids, items, groups.Keys, k);
    if DistinctHere(items) && !forall c <- groups.Keys :: Suffices(kids, items, c) {
      var c :| c in groups.Keys && !Suffices(kids, items, c);
      ScatteredMisplaces(kids, items, groups.Keys, c, k);
    }
  }

  // ---- Two messages for which it fails

  const MEMBERS: Groups<string> := map["9" := {"2"}]

  /** Two groups of counter 9 with another field between them, and then one group with three instances */
  const APART: seq<Token<string>> :=
    [Token("9", "1"), Token("2", "a"), Token("58", "x"), Token("9", "1"), Token("2", "b")]
  const THREE: seq<Token<string>> := [Token("9", "3"), Token("2", "p"), Token("2", "q"), Token("2", "r")]

  function Single(count: string, val: string): Item<string> {
    Inst(Token("9", count), [Leaf(Token("2", val))])
  }

  lemma {:induction false} ParseMember(toks: seq<Token<string>>, pos: nat)
    requires pos < |toks| && toks[pos].tag == "2"
    ensures Parse(toks, MEMBERS, pos, Some({"2"})) == Parsed([Leaf(toks[pos])], pos + 1)
  {
    assert {"2"} - {"2"} == {};
    assert Parse(toks, MEMBERS, pos + 1, Some({})) == Parsed([], pos + 1);
  }

  lemma {:induction false} ParseInstance(toks: seq<Token<string>>, counter: Token<string>, pos: nat)
    requires pos <= |toks| && counter.tag == "9"
    ensures ParseInstances(toks, MEMBERS, counter, pos) ==
            if pos < |toks| && toks[pos].tag == "2" then
              var rest := ParseInstances(toks, MEMBERS, counter, pos + 1);
              Parsed([Inst(counter, [Leaf(toks[pos])])] + rest.items, rest.next)
            else Parsed([], pos)
  {
    if pos < |toks| && toks[pos].tag == "2" {
      ParseMember(toks, pos);
    }
  }

  lemma {:induction false} ParseGroup(toks: seq<Token<string>>, pos: nat)
    requires pos + 1 < |toks| && toks[pos].tag == "9" && toks[pos + 1].tag == "2"
    ensures var insts := ParseInstances(toks, MEMBERS, toks[pos], pos + 1);
            var rest := Parse(toks, MEMBERS, insts.next, None);
            Parse(toks, MEMBERS, pos, None) == Parsed(insts.items + rest.items, rest.next)
  {
  }

  lemma {:induction false} ParseApart()
    ensures Parse(APART, MEMBERS, 0, None).items == [Single("1", "a"), Leaf(APART[2]), Single("1", "b")]
    ensures EndsInLeaf(APART, MEMBERS)
  {
    hide Parse, ParseInstances;
    ParseGroup(APART, 0);
    ParseInstance(APART, APART[0], 1);
    ParseInstance(APART, APART[0], 2);
    ParseStep(APART, MEMBERS, 2, None);
    ParseGroup(APART, 3);
    ParseInstance(APART, APART[3], 4);
    ParseInstance(APART, APART[3], 5);
    ParseAtEnd(APART);
  }

  lemma {:induction false} ParseAtEnd(toks: seq<Token<string>>)
    ensures Parse(toks, MEMBERS, |toks|, None) == Parsed([], |toks|)
  {
  }

  lemma {:induction false} ParseThree()
    ensures Parse(THREE, MEMBERS, 0, None).items == [Single("3", "p"), Single("3", "q"), Single("3", "r")]
    ensures EndsInLeaf(THREE, MEMBERS)
  {
    hide Parse, ParseInstances;
    ParseGroup(THREE, 0);
    ParseInstance(THREE, THREE[0], 1);
    ParseInstance(THREE, THREE[0], 2);
    ParseInstance(THREE, THREE[0], 3);
    ParseInstance(THREE, THREE[0], 4);
    ParseAtEnd(THREE);
  }

  lemma {:induction false} ApartNodes(kids: seq<Tree>)
    requires |kids| == 3 && kids[0].tag == "9" && kids[1].tag == "58" && kids[2].tag == "9"
    ensures !OneRun(kids, "9") && CountTag(kids, "9") == 2
  {
    assert kids[1..][0] == kids[1] && kids[1..][1..] == [kids[2]];
    assert CountTag([kids[2]], "9") == 1 && CountTag(kids[1..], "9") == 1;
  }

  lemma {:induction false} BuiltApart()
    ensures var kids := MergeAll([APART], MEMBERS);
            !OneRun(kids, "9") && CountTag(kids, "9") == 2 && SlotEmpty(kids, 1)
  {
    hide Parse, Merge, CountTag, OneRun, SlotEmpty;
    var items := Parse(APART, MEMBERS, 0, None).items;
    ParseApart();
    BuildAppends([], items, map[]);
    assert [APART][..0] == [] && MergeAll([], MEMBERS) == [];
    assert MergeAll([APART], MEMBERS) == Rendered(items);
    RenderedIndex(items);
    ApartNodes(Rendered(items));
    BuiltSlotsEmpty(items, 1);
  }

  lemma {:induction false} ThreeInstances(items: seq<Item<string>>)
    requires items == [Single("3", "p"), Single("3", "q"), Single("3", "r")]
    ensures Instances(items, "9") == 3 && Ordinal(items, 0) == 1 && Ordinal(items, 1) == 2 && Ordinal(items, 2) == 3
    ensures Separated(items, MEMBERS.Keys) && DistinctHere(items)
    ensures Left(items[1].body, |items[1].body|) == multiset{Token("2", "q")}
  {
    hide Instances, Ordinal, Left, Separated;
    ThreeNumbers(items);
    ThreeSeparated(items);
    SingleLeft(Token("2", "p"));
    SingleLeft(Token("2", "q"));
    SingleLeft(Token("2", "r"));
    assert Token("2", "q") in multiset{Token("2", "q")} && Token("2", "r") in multiset{Token("2", "r")};
    assert Token("2", "q") !in multiset{Token("2", "p")};
    assert Token("2", "r") !in multiset{Token("2", "p"), Token("2", "q")};
  }

  lemma {:induction false} ThreeNumbers(items: seq<Item<string>>)
    requires items == [Single("3", "p"), Single("3", "q"), Single("3", "r")]
    ensures Instances(items, "9") == 3 && Ordinal(items, 0) == 1 && Ordinal(items, 1) == 2 && Ordinal(items, 2) == 3
  {
    assert CountOf(CountsAfter(items, 0), "9") == 0;
    hide CountsAfter;
    CountsStep(items, 0);
    CountsStep(items, 1);
    CountsStep(items, 2);
  }

  lemma {:induction false} ThreeSeparated(items: seq<Item<string>>)
    requires items == [Single("3", "p"), Single("3", "q"), Single("3", "r")]
    ensures Separated(items, MEMBERS.Keys)
  {
  }

  lemma {:induction false} SingleLeft(tok: Token<string>)
    requires tok.val != ""
    ensures Left([Leaf(tok)], 1) == multiset{tok}
  {
    LeftStep([Leaf(tok)], 0);
    assert Left([Leaf(tok)], 0) == multiset{};
  }

  /** The third instance gets a node of its own, but that node is inserted in front of the one that holds
      the second instance: the instances change places. */
  lemma {:induction false} InstancesSwap()
    ensures EndsInLeaf(APART, MEMBERS) && EndsInLeaf(THREE, MEMBERS)
    ensures var merged := MergeAll([APART, THREE], MEMBERS);
            var third := NthNode(merged, "9", 3);
            third.Some? && SlotLeaves(third.value.kids, MEMBERS.Keys, 1) == multiset{Token("2", "q")}
            && !InPlace(merged, Parse(THREE, MEMBERS, 0, None).items, MEMBERS.Keys, 1)
  {
    hide Parse, Merge, MergeAll, SlotLeaves, InPlace, NthNode, OneRun, CountTag, SlotEmpty, Left, Ordinal;
    hide DistinctHere, Separated, Instances;
    var kids, items := MergeAll([APART], MEMBERS), Parse(THREE, MEMBERS, 0, None).items;
    ParseApart();
    ParseThree();
    BuiltApart();
    ThreeInstances(items);
    MergeAllStep([APART], THREE, MEMBERS);
    assert [APART] + [THREE] == [APART, THREE];
    var jn, jm := LastNodeStaysLast(kids, items, MEMBERS.Keys, "9", 1);
    ScatteredMisplaces(kids, items, MEMBERS.Keys, "9", 1);
  }
}
