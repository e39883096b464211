/** Merging a message into the tree that was built from the same message. */
module FixSelfMerge {
  import opened Wrappers
  import opened FixGroups
  import opened FixTree

  /** The value of the last of the first `d` items that is a leaf with the tag */
  function LastValue(items: seq<Item<string>>, d: nat, tag: string): string
    requires d <= |items|
  {
    if d == 0 then ""
    else if items[d - 1].Leaf? && items[d - 1].tok.tag == tag then items[d - 1].tok.val
    else LastValue(items, d - 1, tag)
  }

  predicate Repeats(items: seq<Item<string>>, j: nat)
    requires j < |items|
  {
    exists i :: 0 <= i < j && items[i].Leaf? && items[i].tok.tag == items[j].tok.tag
  }

  /** Slot k of the node of item `j` after the first `d` items have been merged */
  function SlotValue(items: seq<Item<string>>, d: nat, j: nat): string
    requires d <= |items| && j < |items|
  {
    if items[j].Inst? || Repeats(items, j) then "" else LastValue(items, d, items[j].tok.tag)
  }

  /** The node of item `j` in the tree of `items` after the first `d` of them have been merged */
  function NodeAfter(items: seq<Item<string>>, d: nat, j: nat, k: Slot): Tree
    requires k > 0 && d <= |items| && j < |items|
    decreases items, 0
  {
    Tree(items[j].tok.tag, OneValue(0, items[j].tok.val)[k := SlotValue(items, d, j)],
         match items[j]
         case Leaf(_) => []
         case Inst(_, body) => if j < d then SelfMerged(body, |body|, k) else Rendered(body))
  }

  function SelfMerged(items: seq<Item<string>>, d: nat, k: Slot): (r: seq<Tree>)
    requires k > 0 && d <= |items|
    ensures |r| == |items| && forall j :: 0 <= j < |items| ==> r[j] == NodeAfter(items, d, j, k)
    decreases items, 1
  {
    seq(|items|, j requires 0 <= j < |items| => NodeAfter(items, d, j, k))
  }

  lemma {:induction false} NothingMergedYet(items: seq<Item<string>>, k: Slot)
    requires k > 0
    ensures Rendered(items) == SelfMerged(items, 0, k)
  {
    var a, b := Rendered(items), SelfMerged(items, 0, k);
    RenderedIndex(items);
    assert forall j :: 0 <= j < |items| ==> a[j] == b[j];
  }

  // ---- Counting instances

  function CountsAfter(items: seq<Item<string>>, d: nat): Counts
    requires d <= |items|
  {
    if d == 0 then map[] else Counted(CountsAfter(items, d - 1), items[d - 1])
  }

  /** Among separated items the instances of a counter are all the nodes with its tag. */
  lemma {:induction false} CountsAreNodes(items: seq<Item<string>>, counters: set<string>, kids: seq<Tree>, d: nat,
          tag: string)
    requires Separated(items, counters) && tag in counters && d <= |items| == |kids|
    requires forall j :: 0 <= j < |items| ==> kids[j].tag == items[j].tok.tag
    ensures CountOf(CountsAfter(items, d), tag) == CountTag(kids[..d], tag)
  {
    if d > 0 {
      CountsAreNodes(items, counters, kids, d - 1, tag);
      assert kids[..d] == kids[..d - 1] + [kids[d - 1]];
      CountTagSnoc(kids[..d - 1], kids[d - 1], tag);
      assert items[d - 1] in items;
    }
  }

  // ---- The merge item by item

  lemma {:induction false} FirstOfItems(items: seq<Item<string>>, counters: set<string>, a: seq<Tree>, d: nat)
    requires Separated(items, counters) && |a| == |items| && d < |items| && items[d].Leaf?
    requires forall j :: 0 <= j < |items| ==> a[j].tag == items[j].tok.tag
    ensures var f := FirstWithTag(a, items[d].tok.tag);
            f <= d && items[f].Leaf? && items[f].tok.tag == items[d].tok.tag && !Repeats(items, f)
    ensures forall j :: 0 <= j < |items| && items[j].Leaf? && items[j].tok.tag == items[d].tok.tag ==>
              j == FirstWithTag(a, items[d].tok.tag) || Repeats(items, j)
  {
    var tag := items[d].tok.tag;
    var f := FirstWithTag(a, tag);
    assert a[d].tag == tag && items[d] in items;
    assert a[f].tag == items[f].tok.tag && items[f] in items;
    forall i | 0 <= i < f
      ensures items[i].tok.tag != tag
    {
      assert a[i].tag == items[i].tok.tag;
    }
  }

  /** Merging item `d` changes slot k of the first node with its tag, and nothing else on this level. */
  lemma {:induction false} OtherNodesStay(items: seq<Item<string>>, d: nat, j: nat, k: Slot)
    requires k > 0 && d < |items| && j < |items|
    requires if items[d].Inst? then j != d
             else items[j].Leaf? && TagOf(items[j]) == TagOf(items[d]) ==> Repeats(items, j)
    ensures NodeAfter(items, d, j, k) == NodeAfter(items, d + 1, j, k)
  {
    hide SelfMerged, Repeats, Rendered;
  }

  lemma {:induction false} NodeOfLeaf(items: seq<Item<string>>, d: nat, f: nat, k: Slot)
    requires k > 0 && d < |items| && f < |items| && items[d].Leaf? && items[f].Leaf?
    requires TagOf(items[f]) == TagOf(items[d]) && !Repeats(items, f)
    ensures var before := NodeAfter(items, d, f, k);
            NodeAfter(items, d + 1, f, k) == before.(vals := before.vals[k := items[d].tok.val])
  {
    hide Repeats;
  }

  lemma {:induction false} NodeOfInst(items: seq<Item<string>>, d: nat, k: Slot)
    requires k > 0 && d < |items| && items[d].Inst?
    ensures NodeAfter(items, d, d, k).kids == Rendered(items[d].body)
    ensures NodeAfter(items, d + 1, d, k) ==
            NodeAfter(items, d, d, k).(kids := SelfMerged(items[d].body, |items[d].body|, k))
  {
  }

  lemma {:induction false} NodeTags(items: seq<Item<string>>, d: nat, k: Slot)
    requires k > 0 && d <= |items|
    ensures forall j :: 0 <= j < |items| ==> SelfMerged(items, d, k)[j].tag == items[j].tok.tag
  {
  }

  lemma {:induction false} LeafStep(items: seq<Item<string>>, counters: set<string>, d: nat, k: Slot)
    requires k > 0 && d < |items| && items[d].Leaf? && Separated(items, counters)
    ensures SetLeaf(SelfMerged(items, d, k), items[d].tok, k) == SelfMerged(items, d + 1, k)
  {
    hide SelfMerged, Repeats, Rendered, Separated, NodeAfter;
    var a := SelfMerged(items, d, k);
    NodeTags(items, d, k);
    FirstOfItems(items, counters, a, d);
    var f := FirstWithTag(a, items[d].tok.tag);
    forall j | 0 <= j < |items| && j != f
      ensures NodeAfter(items, d, j, k) == NodeAfter(items, d + 1, j, k)
    {
      OtherNodesStay(items, d, j, k);
    }
    NodeOfLeaf(items, d, f, k);
    assert SetLeaf(a, items[d].tok, k) == a[f := NodeAfter(items, d + 1, f, k)];
  }

  lemma {:induction false} InstStep(items: seq<Item<string>>, counters: set<string>, d: nat, k: Slot)
    requires k > 0 && d < |items| && items[d].Inst? && Separated(items, counters)
    requires Merge(Rendered(items[d].body), items[d].body, map[], k) == SelfMerged(items[d].body, |items[d].body|, k)
    ensures MergeItem(SelfMerged(items, d, k), items[d], CountsAfter(items, d), k) == SelfMerged(items, d + 1, k)
  {
    hide SelfMerged, Repeats, Rendered, NthWithTag, CountTag, CountsAfter, Merge, NodeAfter;
    var a := SelfMerged(items, d, k);
    NodeTags(items, d, k);
    assert items[d] in items;
    CountsAreNodes(items, counters, a, d, items[d].tok.tag);
    NthIsCount(a, items[d].tok.tag, d);
    forall j | 0 <= j < |items| && j != d
      ensures NodeAfter(items, d, j, k) == NodeAfter(items, d + 1, j, k)
    {
      OtherNodesStay(items, d, j, k);
    }
    NodeOfInst(items, d, k);
    assert MergeItem(a, items[d], CountsAfter(items, d), k) == a[d := NodeAfter(items, d + 1, d, k)];
  }

  /** The merge of a message into its own tree, for all separated items, repeated tags included */
  lemma {:induction false} MergeOwnItems(items: seq<Item<string>>, counters: set<string>, d: nat, k: Slot)
    requires k > 0 && d <= |items| && Separated(items, counters)
    ensures Merge(SelfMerged(items, d, k), items[d..], CountsAfter(items, d), k) == SelfMerged(items, |items|, k)
    decreases items, |items| - d
  {
    hide SelfMerged, Rendered, Merge, CountsAfter;
    MergeRest(SelfMerged(items, d, k), items, d, k);
    if d < |items| {
      var item := items[d];
      assert item in items;
      if item.Leaf? {
        LeafStep(items, counters, d, k);
        MergeLeafItem(SelfMerged(items, d, k), item.tok, CountsAfter(items, d), k);
      } else {
        NothingMergedYet(item.body, k);
        MergeOwnItems(item.body, counters, 0, k);
        assert item.body[0..] == item.body;
        NoCounts(item.body);
        InstStep(items, counters, d, k);
      }
      MergeOwnItems(items, counters, d + 1, k);
    }
  }

  lemma {:induction false} MergeLeafItem(kids: seq<Tree>, tok: Token<string>, counts: Counts, k: Slot)
    ensures MergeItem(kids, Leaf(tok), counts, k) == SetLeaf(kids, tok, k)
  {
  }

  lemma {:induction false} NoCounts(items: seq<Item<string>>)
    ensures CountsAfter(items, 0) == map[]
  {
  }

  lemma {:induction false} MergeRest(kids: seq<Tree>, items: seq<Item<string>>, d: nat, k: Slot)
    requires d <= |items|
    ensures Merge(kids, items[d..], CountsAfter(items, d), k) ==
            if d == |items| then kids
            else Merge(MergeItem(kids, items[d], CountsAfter(items, d), k), items[d + 1..], CountsAfter(items, d + 1),
                k)
  {
    if d < |items| {
      assert items[d..][1..] == items[d + 1..];
    }
  }

  // ---- What it leaves behind

  /** The same nodes, with nothing but slot k changed */
  predicate SameNodes(a: seq<Tree>, b: seq<Tree>, k: Slot)
    decreases a
  {
    |a| == |b| && forall j :: 0 <= j < |a| ==> SameNode(a[j], b[j], k)
  }

  predicate SameNode(a: Tree, b: Tree, k: Slot)
    decreases a
  {
    a.tag == b.tag && a.vals[k := ""] == b.vals[k := ""] && SameNodes(a.kids, b.kids, k)
  }

  /** Slot 0 and slot k are equal at every leaf, that is, at every node that is not a counter's. */
  predicate SlotsAgree(trees: seq<Tree>, counters: set<string>, k: Slot) {
    forall t <- trees :: (t.tag !in counters ==> t.vals[0] == t.vals[k]) && SlotsAgree(t.kids, counters, k)
  }

  /** Leaves with one tag are all empty when there are several of them. */
  predicate NoConflict(items: seq<Item<string>>) {
    forall i, j :: 0 <= i < j < |items| && items[i].Leaf? && items[j].Leaf? && TagOf(items[i]) == TagOf(items[j]) ==>
      items[i].tok.val == "" && items[j].tok.val == ""
  }

  lemma {:induction false} SelfMergedSameNodes(items: seq<Item<string>>, k: Slot)
    requires k > 0
    ensures SameNodes(Rendered(items), SelfMerged(items, |items|, k), k)
    decreases items
  {
    var a, b := Rendered(items), SelfMerged(items, |items|, k);
    RenderedIndex(items);
    forall j | 0 <= j < |items|
      ensures SameNode(a[j], b[j], k)
    {
      assert items[j] in items;
      if items[j].Inst? {
        SelfMergedSameNodes(items[j].body, k);
      }
    }
  }

  lemma {:induction false} LastValueIs(items: seq<Item<string>>, d: nat, tag: string) returns (l: nat)
    requires d <= |items|
    requires exists i :: 0 <= i < d && items[i].Leaf? && items[i].tok.tag == tag
    ensures l < d && items[l].Leaf? && items[l].tok.tag == tag && LastValue(items, d, tag) == items[l].tok.val
    ensures forall i :: l < i < d && items[i].Leaf? ==> items[i].tok.tag != tag
  {
    if items[d - 1].Leaf? && items[d - 1].tok.tag == tag {
      l := d - 1;
    } else {
      l := LastValueIs(items, d - 1, tag);
    }
  }

  /** A leaf ends up with equal slots when it is the only one with its tag, or all of them are empty. */
  lemma {:induction false} LeafAgrees(items: seq<Item<string>>, j: nat)
    requires j < |items| && items[j].Leaf? && NoConflict(items)
    ensures SlotValue(items, |items|, j) == items[j].tok.val
  {
    var l := LastValueIs(items, |items|, items[j].tok.tag);
    if Repeats(items, j) {
      var i :| 0 <= i < j && items[i].Leaf? && items[i].tok.tag == items[j].tok.tag;
      assert TagOf(items[i]) == TagOf(items[j]);
    } else if l != j {
      assert TagOf(items[l]) == TagOf(items[j]);
    }
  }

  lemma {:induction false} AgreementMeansNoConflict(items: seq<Item<string>>)
    requires forall j :: 0 <= j < |items| && items[j].Leaf? ==> SlotValue(items, |items|, j) == items[j].tok.val
    ensures NoConflict(items)
  {
    forall i, j | 0 <= i < j < |items| && items[i].Leaf? && items[j].Leaf? && TagOf(items[i]) == TagOf(items[j])
      ensures items[i].tok.val == "" && items[j].tok.val == ""
    {
      assert Repeats(items, j);
      var l := LastValueIs(items, |items|, items[i].tok.tag);
      assert Repeats(items, l);
    }
  }

  lemma {:induction false} InstanceHasNoConflict(body: seq<Item<string>>, allowed: set<string>)
    requires InstanceShape(body, allowed)
    ensures NoConflict(body)
  {
  }

  predicate NoConflictBelow(items: seq<Item<string>>) {
    NoConflict(items) && forall item <- items :: item.Inst? ==> NoConflictBelow(item.body)
  }

  lemma {:induction false} AgreeIffNoConflict(items: seq<Item<string>>, counters: set<string>, k: Slot)
    requires k > 0 && Separated(items, counters)
    ensures SlotsAgree(SelfMerged(items, |items|, k), counters, k) <==> NoConflictBelow(items)
    decreases items
  {
    var t := SelfMerged(items, |items|, k);
    forall j | 0 <= j < |items| && items[j].Inst?
      ensures SlotsAgree(t[j].kids, counters, k) <==> NoConflictBelow(items[j].body)
    {
      assert items[j] in items;
      AgreeIffNoConflict(items[j].body, counters, k);
    }
    if NoConflictBelow(items) {
      forall j | 0 <= j < |items|
        ensures (t[j].tag !in counters ==> t[j].vals[0] == t[j].vals[k]) && SlotsAgree(t[j].kids, counters, k)
      {
        assert items[j] in items;
        if items[j].Leaf? {
          LeafAgrees(items, j);
        }
      }
    }
    if SlotsAgree(t, counters, k) {
      forall j | 0 <= j < |items| && items[j].Inst?
        ensures NoConflictBelow(items[j].body)
      {
        assert t[j] in t;
      }
      forall j | 0 <= j < |items| && items[j].Leaf?
        ensures SlotValue(items, |items|, j) == items[j].tok.val
      {
        assert items[j] in items && t[j] in t;
      }
      AgreementMeansNoConflict(items);
    }
  }

  /** Groups of repeating-group messages never conflict. */
  lemma {:induction false} OnlyTopConflicts(items: seq<Item<string>>, groups: Groups<string>)
    requires Shaped(items, groups)
    ensures NoConflictBelow(items) <==> NoConflict(items)
    decreases items
  {
    forall item | item in items && item.Inst?
      ensures NoConflictBelow(item.body)
    {
      InstanceHasNoConflict(item.body, groups[item.tok.tag]);
      OnlyTopConflicts(item.body, groups);
    }
  }

  /** Reading separated items into slot 0 and then into slot k: no node is added, no other slot is
      changed, and the slots agree at every leaf exactly when leaves of one level with one tag are
      unique or empty. */
  lemma {:induction false} SelfMergeOfItems(items: seq<Item<string>>, counters: set<string>, k: Slot)
    requires k > 0 && Separated(items, counters)
    ensures var built := Merge([], items, map[], 0);
            var merged := Merge(built, items, map[], k);
            SameNodes(built, merged, k) && (SlotsAgree(merged, counters, k) <==> NoConflictBelow(items))
  {
    hide SelfMerged, Rendered, Merge, SameNodes, SlotsAgree, NoConflictBelow;
    BuildAppends([], items, map[]);
    assert Merge([], items, map[], 0) == Rendered(items);
    NothingMergedYet(items, k);
    MergeOwnItems(items, counters, 0, k);
    NoCounts(items);
    assert items[0..] == items;
    SelfMergedSameNodes(items, k);
    AgreeIffNoConflict(items, counters, k);
  }

  /** Merging a message into slot k adds no node and changes no other slot. Slot 0 and
      slot k are then equal at every leaf exactly when no two top-level leaves have one tag, unless
      all leaves with that tag are empty; inside groups the condition always holds. */
  lemma {:induction false} SelfMerge(toks: seq<Token<string>>, groups: Groups<string>, k: Slot)
    requires k > 0
    ensures var items := Parse(toks, groups, 0, None).items;
            var built := Merge([], items, map[], 0);
            var merged := Merge(built, items, map[], k);
            SameNodes(built, merged, k) && (SlotsAgree(merged, groups.Keys, k) <==> NoConflict(items))
  {
    hide Merge, SameNodes, SlotsAgree, NoConflictBelow, NoConflict, Shaped, Separated;
    var items := Parse(toks, groups, 0, None).items;
    ParseShapes(toks, groups, 0, None);
    SelfMergeOfItems(items, groups.Keys, k);
    OnlyTopConflicts(items, groups);
  }

  // ---- A message for which it fails

  const REPEATED: seq<Token<string>> := [Token("58", "a"), Token("58", "b")]

  lemma {:induction false} ParseRepeated(groups: Groups<string>)
    requires "58" !in groups
    ensures Parse(REPEATED, groups, 0, None).items == [Leaf(REPEATED[0]), Leaf(REPEATED[1])]
  {
    assert Parse(REPEATED, groups, 2, None).items == [];
    assert Parse(REPEATED, groups, 1, None).items == [Leaf(REPEATED[1])];
  }

  /** Tag 58 twice at the top level: the first node gets both values in turn and the second none. */
  lemma {:induction false} RepeatedTagDisagrees(groups: Groups<string>, k: Slot)
    requires k > 0 && "58" !in groups
    ensures var items := Parse(REPEATED, groups, 0, None).items;
            !SlotsAgree(Merge(Merge([], items, map[], 0), items, map[], k), groups.Keys, k)
  {
    hide Parse, Merge, SlotsAgree, SameNodes;
    ParseRepeated(groups);
    var items := Parse(REPEATED, groups, 0, None).items;
    assert items[0].Leaf? && items[1].Leaf? && TagOf(items[0]) == TagOf(items[1]) && items[0].tok.val != "";
    assert !NoConflict(items);
    SelfMerge(REPEATED, groups, k);
  }
}
