/** The shape of the tree under merges: below a counter's node all instances of one inner counter stay
    next to each other, new ones last, and every other tag stays unique. */
module FixMergeShape {
  import opened Wrappers
  import opened FixGroups
  import opened FixTree
  import opened FixMergeValues

  /** The siblings with the tag are next to each other. */
  predicate OneRun(kids: seq<Tree>, tag: string) {
    forall i, j :: 0 <= i < j < |kids| && kids[i].tag == tag && kids[j].tag == tag ==>
      forall l :: i <= l <= j ==> kids[l].tag == tag
  }

  /** The siblings with the tag are the `n` ones from `f` on. */
  predicate RunAt(kids: seq<Tree>, tag: string, f: nat, n: nat) {
    f + n <= |kids| && forall l :: 0 <= l < |kids| ==> (kids[l].tag == tag <==> f <= l < f + n)
  }

  lemma {:induction false} RunAtIsRun(kids: seq<Tree>, tag: string, f: nat, n: nat)
    requires RunAt(kids, tag, f, n)
    ensures OneRun(kids, tag)
  {
  }

  lemma {:induction false} RunStartsAtFirst(kids: seq<Tree>, tag: string)
    requires OneRun(kids, tag)
    ensures RunAt(kids, tag, FirstWithTag(kids, tag), CountTag(kids, tag))
  {
    if kids != [] {
      var rest := kids[1..];
      assert forall l :: 0 <= l < |rest| ==> rest[l] == kids[l + 1];
      RunStartsAtFirst(rest, tag);
      CountTagZero(rest, tag);
      CountTagFirst(kids, tag);
      var g := FirstWithTag(rest, tag);
      if kids[0].tag == tag && g < |rest| {
        assert kids[g + 1].tag == tag;
        assert kids[1].tag == tag;
      }
      var f := FirstWithTag(kids, tag);
      forall l | 0 <= l < |kids|
        ensures kids[l].tag == tag <==> f <= l < f + CountTag(kids, tag)
      {
        if l > 0 {
          assert kids[l] == rest[l - 1];
        }
      }
    }
  }

  /** Inserting a node beside a run, or at the end of the run if it has the tag */
  lemma {:induction false} RunAtInsert(kids: seq<Tree>, ref: nat, t: Tree, tag: string, f: nat, n: nat)
    requires RunAt(kids, tag, f, n) && ref <= |kids|
    requires if t.tag == tag then ref == f + n else ref <= f || f + n <= ref
    ensures var after := kids[..ref] + [t] + kids[ref..];
            if t.tag == tag then RunAt(after, tag, f, n + 1) else RunAt(after, tag, if ref <= f then f + 1 else f, n)
  {
    var after := kids[..ref] + [t] + kids[ref..];
    assert forall l :: 0 <= l < ref ==> after[l] == kids[l];
    assert forall l :: ref < l < |after| ==> after[l] == kids[l - 1];
  }

  /** A new instance becomes the last of its run. */
  lemma {:induction false} InsertExtendsRun(kids: seq<Tree>, t: Tree)
    requires OneRun(kids, t.tag)
    ensures var ref := InsertPosition(kids, t.tag);
            var after := kids[..ref] + [t] + kids[ref..];
            OneRun(after, t.tag) && forall l :: ref < l < |after| ==> after[l].tag != t.tag
  {
    hide FirstWithTag, CountTag, OneRun;
    var f, n := FirstWithTag(kids, t.tag), CountTag(kids, t.tag);
    RunStartsAtFirst(kids, t.tag);
    RunAtInsert(kids, f + n, t, t.tag, f, n);
    RunAtIsRun(kids[..f + n] + [t] + kids[f + n..], t.tag, f, n + 1);
  }

  /** ... and is not inserted into another run. */
  lemma {:induction false} InsertKeepsOtherRuns(kids: seq<Tree>, t: Tree, tag: string)
    requires OneRun(kids, t.tag) && OneRun(kids, tag) && tag != t.tag
    ensures var ref := InsertPosition(kids, t.tag); OneRun(kids[..ref] + [t] + kids[ref..], tag)
  {
    hide FirstWithTag, CountTag, OneRun, RunAt, InsertPosition;
    var ref := InsertPosition(kids, t.tag);
    var f, n := FirstWithTag(kids, tag), CountTag(kids, tag);
    RunStartsAtFirst(kids, tag);
    InsertBesideRun(kids, t.tag, tag, f, n);
    RunAtInsert(kids, ref, t, tag, f, n);
    RunAtIsRun(kids[..ref] + [t] + kids[ref..], tag, if ref <= f then f + 1 else f, n);
  }

  lemma {:induction false} InsertBesideRun(kids: seq<Tree>, inserted: string, tag: string, f: nat, n: nat)
    requires OneRun(kids, inserted) && RunAt(kids, tag, f, n) && tag != inserted
    ensures var ref := InsertPosition(kids, inserted); ref <= f || f + n <= ref
  {
    hide FirstWithTag, CountTag, OneRun;
    RunStartsAtFirst(kids, inserted);
    var ref := InsertPosition(kids, inserted);
    CountTagZero(kids, inserted);
    if f < ref < f + n {
      assert kids[ref - 1].tag == tag;
      FirstOfNone(kids, inserted);
    }
  }

  lemma {:induction false} FirstOfNone(kids: seq<Tree>, tag: string)
    ensures CountTag(kids, tag) == 0 ==> FirstWithTag(kids, tag) == |kids|
  {
    CountTagZero(kids, tag);
  }

  /** The same as KidsShape, run by run */
  lemma {:induction false} KidsShapeIsRuns(kids: seq<Tree>, groups: Groups<string>, allowed: set<string>)
    ensures KidsShape(kids, groups, allowed) <==>
            (forall i :: 0 <= i < |kids| ==> kids[i].tag in allowed)
            && (forall tag :: OneRun(kids, tag))
            && (forall i, j :: 0 <= i < j < |kids| && kids[i].tag == kids[j].tag ==> kids[i].tag in groups)
  {
    if (forall tag :: OneRun(kids, tag)) && forall i, j :: 0 <= i < j < |kids| && kids[i].tag == kids[j].tag ==>
        kids[i].tag in groups {
      forall i, j | 0 <= i < j < |kids| && kids[i].tag == kids[j].tag
        ensures forall l :: i <= l <= j ==> kids[l].tag == kids[i].tag && kids[i].tag in groups
      {
        assert OneRun(kids, kids[i].tag);
      }
    }
  }

  lemma {:induction false} InsertKeepsKidsShape(kids: seq<Tree>, t: Tree, groups: Groups<string>, allowed: set<string>)
    requires KidsShape(kids, groups, allowed) && t.tag in groups && t.tag in allowed
    ensures var ref := InsertPosition(kids, t.tag); KidsShape(kids[..ref] + [t] + kids[ref..], groups, allowed)
  {
    hide KidsShape, OneRun, InsertPosition;
    KidsShapeIsRuns(kids, groups, allowed);
    var ref := InsertPosition(kids, t.tag);
    var after := kids[..ref] + [t] + kids[ref..];
    InsertKeepsMembers(kids, ref, t, groups, allowed);
    forall tag
      ensures OneRun(after, tag)
    {
      if tag == t.tag {
        InsertExtendsRun(kids, t);
      } else {
        InsertKeepsOtherRuns(kids, t, tag);
      }
    }
    KidsShapeIsRuns(after, groups, allowed);
  }

  lemma {:induction false} InsertKeepsMembers(kids: seq<Tree>, ref: nat, t: Tree, groups: Groups<string>,
          allowed: set<string>)
    requires ref <= |kids| && t.tag in groups && t.tag in allowed
    requires forall i :: 0 <= i < |kids| ==> kids[i].tag in allowed
    requires forall i, j :: 0 <= i < j < |kids| && kids[i].tag == kids[j].tag ==> kids[i].tag in groups
    ensures var after := kids[..ref] + [t] + kids[ref..];
            (forall i :: 0 <= i < |after| ==> after[i].tag in allowed)
            && forall i, j :: 0 <= i < j < |after| && after[i].tag == after[j].tag ==> after[i].tag in groups
  {
    var after := kids[..ref] + [t] + kids[ref..];
    forall i, j | 0 <= i < j < |after| && after[i].tag == after[j].tag
      ensures after[i].tag in groups
    {
      if i != ref && j != ref {
        var x, y := if i < ref then i else i - 1, if j < ref then j else j - 1;
        assert after[i] == kids[x] && after[j] == kids[y];
      }
    }
  }

  lemma {:induction false} SameTagsSameShape(a: seq<Tree>, b: seq<Tree>, groups: Groups<string>, allowed: set<string>)
    requires |a| == |b| && forall i :: 0 <= i < |a| ==> a[i].tag == b[i].tag
    requires KidsShape(a, groups, allowed)
    ensures KidsShape(b, groups, allowed)
  {
  }

  lemma {:induction false} SetLeafKeepsKidsShape(kids: seq<Tree>, tok: Token<string>, groups: Groups<string>,
          allowed: set<string>, k: Slot)
    requires k > 0 && KidsShape(kids, groups, allowed) && tok.tag in allowed
    ensures KidsShape(SetLeaf(kids, tok, k), groups, allowed)
  {
    var f := FirstWithTag(kids, tok.tag);
    if f < |kids| {
      SameTagsSameShape(kids, SetLeaf(kids, tok, k), groups, allowed);
    }
  }

  lemma {:induction false} MergeItemKeepsKidsShape(kids: seq<Tree>, item: Item<string>, counts: Counts,
          groups: Groups<string>, allowed: set<string>, k: Slot)
    requires k > 0 && KidsShape(kids, groups, allowed) && item.tok.tag in allowed && (item.Inst? ==>
        item.tok.tag in groups)
    ensures KidsShape(MergeItem(kids, item, counts, k), groups, allowed)
  {
    hide KidsShape, Merge, SetLeaf, NthWithTag, InsertPosition;
    match item {
      case Leaf(tok) =>
        SetLeafKeepsKidsShape(kids, tok, groups, allowed, k);
      case Inst(tok, _) =>
        var p := Place(kids, tok, k, CountOf(counts, tok.tag) + 1);
        InsertKeepsKidsShape(kids, NewNode(tok.tag, k, tok.val), groups, allowed);
        SameTagsSameShape(p.kids, MergeItem(kids, item, counts, k), groups, allowed);
    }
  }

  lemma {:induction false} MergeKeepsKidsShape(kids: seq<Tree>, items: seq<Item<string>>, counts: Counts,
          groups: Groups<string>, allowed: set<string>, k: Slot)
    requires k > 0 && KidsShape(kids, groups, allowed) && Separated(items, groups.Keys)
    requires forall item <- items :: item.tok.tag in allowed
    ensures KidsShape(Merge(kids, items, counts, k), groups, allowed)
    decreases |items|
  {
    hide KidsShape, MergeItem;
    if items != [] {
      assert items[0] in items && forall item <- items[1..] :: item in items;
      MergeItemKeepsKidsShape(kids, items[0], counts, groups, allowed, k);
      MergeKeepsKidsShape(MergeItem(kids, items[0], counts, k), items[1..], Counted(counts, items[0]), groups,
          allowed, k);
    }
  }

  predicate NodeShape(t: Tree, groups: Groups<string>) {
    (t.tag in groups ==> KidsShape(t.kids, groups, groups[t.tag])) && TreeShape(t.kids, groups)
  }

  lemma {:induction false} TreeShapeIsNodes(trees: seq<Tree>, groups: Groups<string>)
    ensures TreeShape(trees, groups) <==> forall i :: 0 <= i < |trees| ==> NodeShape(trees[i], groups)
  {
    hide KidsShape;
    if TreeShape(trees, groups) {
      forall i | 0 <= i < |trees|
        ensures NodeShape(trees[i], groups)
      {
        assert trees[i] in trees;
      }
    }
    if forall i :: 0 <= i < |trees| ==> NodeShape(trees[i], groups) {
      forall t | t in trees
        ensures (t.tag in groups ==> KidsShape(t.kids, groups, groups[t.tag])) && TreeShape(t.kids, groups)
      {
        assert NodeShape(t, groups);
      }
    }
  }

  lemma {:induction false} NewNodeShape(tag: string, k: Slot, val: string, groups: Groups<string>)
    ensures NodeShape(NewNode(tag, k, val), groups)
  {
  }

  /** Merging a message into any tree of the prescribed shape keeps the shape. */
  lemma {:induction false} MergeKeepsShape(kids: seq<Tree>, items: seq<Item<string>>, counts: Counts,
          groups: Groups<string>, k: Slot)
    requires k > 0 && TreeShape(kids, groups) && Separated(items, groups.Keys) && Shaped(items, groups)
    ensures TreeShape(Merge(kids, items, counts, k), groups)
    decreases items
  {
    hide TreeShape, MergeItem;
    if items != [] {
      assert items[0] in items && forall item <- items[1..] :: item in items;
      MergeItemKeepsShape(kids, items[0], counts, groups, k);
      MergeKeepsShape(MergeItem(kids, items[0], counts, k), items[1..], Counted(counts, items[0]), groups, k);
    }
  }

  lemma {:induction false} MergeItemKeepsShape(kids: seq<Tree>, item: Item<string>, counts: Counts,
          groups: Groups<string>, k: Slot)
    requires k > 0 && TreeShape(kids, groups) && Separated([item], groups.Keys) && Shaped([item], groups)
    ensures TreeShape(MergeItem(kids, item, counts, k), groups)
    decreases item
  {
    hide TreeShape, Merge, Place, SetLeaf, InstanceShape;
    assert item in [item];
    match item {
      case Leaf(tok) =>
        SetLeafKeepsNodes(kids, tok, groups, k);
      case Inst(tok, body) =>
        var p := Place(kids, tok, k, CountOf(counts, tok.tag) + 1);
        var node := p.kids[p.at];
        PlaceKeepsNodes(kids, tok, CountOf(counts, tok.tag) + 1, groups, k);
        NodeOfTree(p.kids, p.at, groups);
        MergeKeepsShape(node.kids, body, map[], groups, k);
        MembersAllowed(body, groups[tok.tag]);
        MergeKeepsKidsShape(node.kids, body, map[], groups, groups[tok.tag], k);
        ReplaceKeepsNodes(p.kids, p.at, node.(kids := Merge(node.kids, body, map[], k)), groups);
    }
  }

  lemma {:induction false} NodeOfTree(kids: seq<Tree>, i: nat, groups: Groups<string>)
    requires TreeShape(kids, groups) && i < |kids|
    ensures NodeShape(kids[i], groups)
  {
    TreeShapeIsNodes(kids, groups);
  }

  lemma {:induction false} ReplaceKeepsNodes(kids: seq<Tree>, i: nat, t: Tree, groups: Groups<string>)
    requires TreeShape(kids, groups) && i < |kids| && NodeShape(t, groups)
    ensures TreeShape(kids[i := t], groups)
  {
    hide TreeShape, NodeShape;
    TreeShapeIsNodes(kids, groups);
    TreeShapeIsNodes(kids[i := t], groups);
  }

  lemma {:induction false} InsertKeepsNodes(kids: seq<Tree>, i: nat, t: Tree, groups: Groups<string>)
    requires TreeShape(kids, groups) && i <= |kids| && NodeShape(t, groups)
    ensures TreeShape(kids[..i] + [t] + kids[i..], groups)
  {
    hide TreeShape, NodeShape;
    TreeShapeIsNodes(kids, groups);
    TreeShapeIsNodes(kids[..i] + [t] + kids[i..], groups);
  }

  lemma {:induction false} SetLeafKeepsNodes(kids: seq<Tree>, tok: Token<string>, groups: Groups<string>, k: Slot)
    requires k > 0 && TreeShape(kids, groups)
    ensures TreeShape(SetLeaf(kids, tok, k), groups)
  {
    hide TreeShape, SetLeaf, FirstWithTag, KidsShape;
    SetLeafShape(kids, tok, k);
    var f := FirstWithTag(kids, tok.tag);
    if f < |kids| {
      NodeOfTree(kids, f, groups);
      ReplaceKeepsNodes(kids, f, kids[f].(vals := kids[f].vals[k := tok.val]), groups);
    } else {
      NewNodeShape(tok.tag, k, tok.val, groups);
      InsertKeepsNodes(kids, |kids|, NewNode(tok.tag, k, tok.val), groups);
    }
  }

  lemma {:induction false} PlaceKeepsNodes(kids: seq<Tree>, tok: Token<string>, n: nat, groups: Groups<string>, k: Slot)
    requires k > 0 && TreeShape(kids, groups)
    ensures TreeShape(Place(kids, tok, k, n).kids, groups)
    ensures var p := Place(kids, tok, k, n); p.kids[p.at].tag == tok.tag
  {
    hide TreeShape, NodeShape, NthWithTag, InsertPosition;
    NewNodeShape(tok.tag, k, tok.val, groups);
    InsertKeepsNodes(kids, InsertPosition(kids, tok.tag), NewNode(tok.tag, k, tok.val), groups);
  }

  lemma {:induction false} MembersAllowed(body: seq<Item<string>>, allowed: set<string>)
    requires InstanceShape(body, allowed)
    ensures forall item <- body :: item.tok.tag in allowed
  {
    forall item | item in body
      ensures item.tok.tag in allowed
    {
      var i :| 0 <= i < |body| && body[i] == item;
      assert TagOf(body[i]) in allowed;
    }
  }

  /** Every tree that a run of merges makes has the shape that the group table prescribes. */
  lemma {:induction false} EveryTreeIsShaped(msgs: seq<seq<Token<string>>>, groups: Groups<string>)
    requires |msgs| <= SIZE
    ensures TreeShape(MergeAll(msgs, groups), groups)
    decreases |msgs|
  {
    hide TreeShape, Merge, Parse, Separated, Shaped;
    if msgs == [] {
      TreeShapeIsNodes([], groups);
    } else {
      var last := |msgs| - 1;
      EveryTreeIsShaped(msgs[..last], groups);
      ParseShapes(msgs[last], groups, 0, None);
      if last == 0 {
        BuiltTree(msgs[0], groups);
      } else {
        MergeKeepsShape(MergeAll(msgs[..last], groups), Parse(msgs[last], groups, 0, None).items, map[], groups, last);
      }
    }
  }
}
