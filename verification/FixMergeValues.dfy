/** What a merge does with the values of the merged message: which of them the slot holds afterwards. */
module FixMergeValues {
  import opened Wrappers
  import opened FixGroups
  import opened FixTree
  import opened FixSelfMerge

  // ---- Values of a slot and values of a message

  function ValueOf(tag: string, val: string): multiset<Token<string>> {
    if val == "" then multiset{} else multiset{Token(tag, val)}
  }

  /** The nonempty values in slot k of all nodes that are not a counter's, at every depth */
  function SlotLeaves(trees: seq<Tree>, counters: set<string>, k: Slot): multiset<Token<string>> {
    if trees == [] then multiset{} else SlotLeavesBelow(trees[0], counters, k) + SlotLeaves(trees[1..], counters, k)
  }

  function SlotLeavesBelow(t: Tree, counters: set<string>, k: Slot): multiset<Token<string>> {
    (if t.tag in counters then multiset{} else ValueOf(t.tag, t.vals[k])) + SlotLeaves(t.kids, counters, k)
  }

  function NonEmpty(toks: seq<Token<string>>): multiset<Token<string>> {
    if toks == [] then multiset{} else ValueOf(toks[0].tag, toks[0].val) + NonEmpty(toks[1..])
  }

  predicate SlotEmpty(trees: seq<Tree>, k: Slot) {
    forall t <- trees :: t.vals[k] == "" && SlotEmpty(t.kids, k)
  }

  lemma {:induction false} SlotLeavesUpdate(a: seq<Tree>, i: nat, t: Tree, counters: set<string>, k: Slot)
    requires i < |a|
    ensures SlotLeavesBelow(a[i], counters, k) <= SlotLeaves(a, counters, k)
    ensures SlotLeaves(a[i := t], counters, k) ==
            SlotLeaves(a, counters, k) - SlotLeavesBelow(a[i], counters, k) + SlotLeavesBelow(t, counters, k)
  {
    hide SlotLeavesBelow;
    if i == 0 {
      assert a[0 := t][1..] == a[1..];
    } else {
      SlotLeavesUpdate(a[1..], i - 1, t, counters, k);
      assert a[i := t][1..] == a[1..][i - 1 := t];
    }
  }

  lemma {:induction false} SlotLeavesInsert(a: seq<Tree>, i: nat, t: Tree, counters: set<string>, k: Slot)
    requires i <= |a|
    ensures SlotLeaves(a[..i] + [t] + a[i..], counters, k) == SlotLeaves(a, counters, k) + SlotLeavesBelow(t,
        counters, k)
  {
    hide SlotLeavesBelow;
    var b := a[..i] + [t] + a[i..];
    if i == 0 {
      assert b[1..] == a;
    } else {
      SlotLeavesInsert(a[1..], i - 1, t, counters, k);
      assert b[1..] == a[1..][..i - 1] + [t] + a[1..][i - 1..];
    }
  }

  lemma {:induction false} NothingInEmptySlot(trees: seq<Tree>, counters: set<string>, k: Slot)
    requires SlotEmpty(trees, k)
    ensures SlotLeaves(trees, counters, k) == multiset{}
    decreases trees
  {
    if trees != [] {
      assert trees[0] in trees;
      NothingInEmptySlot(trees[0].kids, counters, k);
      NothingInEmptySlot(trees[1..], counters, k);
    }
  }

  lemma {:induction false} NonEmptyAppend(a: seq<Token<string>>, b: seq<Token<string>>)
    ensures NonEmpty(a + b) == NonEmpty(a) + NonEmpty(b)
  {
    hide ValueOf;
    if a == [] {
      assert a + b == b;
    } else {
      NonEmptyAppend(a[1..], b);
      assert (a + b)[1..] == a[1..] + b && (a + b)[0] == a[0];
      assert NonEmpty(a + b) == ValueOf(a[0].tag, a[0].val) + (NonEmpty(a[1..]) + NonEmpty(b));
    }
  }

  // ---- The values that are left: the last one of every tag on a level

  /** After the first `d` items: a leaf displaces the last value of its tag on its own level. */
  function Left(items: seq<Item<string>>, d: nat): multiset<Token<string>>
    requires d <= |items|
    decreases items, d
  {
    if d == 0 then multiset{}
    else
      match items[d - 1]
      case Leaf(tok) => Left(items, d - 1) - ValueOf(tok.tag, LastValue(items, d - 1, tok.tag)) + ValueOf(tok.tag,
          tok.val)
      case Inst(_, body) => Left(items, d - 1) + Left(body, |body|)
  }

  // ---- Siblings while they are merged into

  /** Slot k of the node that a leaf with the tag would go to */
  function NodeValue(kids: seq<Tree>, tag: string, k: Slot): string {
    if kids == [] then ""
    else if kids[0].tag == tag then kids[0].vals[k]
    else NodeValue(kids[1..], tag, k)
  }

  /** All nodes with the tag but the first `m` have an empty slot k below them. */
  predicate LaterEmpty(kids: seq<Tree>, tag: string, m: nat, k: Slot) {
    kids == [] ||
    if kids[0].tag == tag then
      (m > 0 || SlotEmpty(kids[0].kids, k)) && LaterEmpty(kids[1..], tag, if m > 0 then m - 1 else 0, k)
    else LaterEmpty(kids[1..], tag, m, k)
  }

  lemma {:induction false} NodeValueIsFirst(kids: seq<Tree>, tag: string, k: Slot)
    ensures var f := FirstWithTag(kids, tag); NodeValue(kids, tag, k) == if f < |kids| then kids[f].vals[k] else ""
  {
    if kids != [] && kids[0].tag != tag {
      NodeValueIsFirst(kids[1..], tag, k);
    }
  }

  lemma {:induction false} SetLeafNodeValue(kids: seq<Tree>, tok: Token<string>, k: Slot)
    requires k > 0
    ensures NodeValue(SetLeaf(kids, tok, k), tok.tag, k) == tok.val
  {
    var after := SetLeaf(kids, tok, k);
    var f := FirstWithTag(kids, tok.tag);
    NodeValueIsFirst(after, tok.tag, k);
    var g := FirstWithTag(after, tok.tag);
    assert after[f].tag == tok.tag && g == f;
  }

  /** Replacing a node by one with its tag, or inserting one, does not concern other tags. */
  lemma {:induction false} OthersAfterUpdate(kids: seq<Tree>, i: nat, t: Tree, tag: string, m: nat, k: Slot)
    requires i < |kids| && kids[i].tag == t.tag != tag
    ensures NodeValue(kids[i := t], tag, k) == NodeValue(kids, tag, k)
    ensures LaterEmpty(kids[i := t], tag, m, k) == LaterEmpty(kids, tag, m, k)
  {
    if i == 0 {
      assert kids[0 := t][1..] == kids[1..];
    } else {
      OthersAfterUpdate(kids[1..], i - 1, t, tag, if kids[0].tag == tag && m > 0 then m - 1 else m, k);
      assert kids[i := t][1..] == kids[1..][i - 1 := t];
    }
  }

  lemma {:induction false} OthersAfterInsert(kids: seq<Tree>, i: nat, t: Tree, tag: string, m: nat, k: Slot)
    requires i <= |kids| && t.tag != tag
    ensures var after := kids[..i] + [t] + kids[i..];
            NodeValue(after, tag, k) == NodeValue(kids, tag, k) && LaterEmpty(after, tag, m, k) == LaterEmpty(kids,
                tag, m, k)
  {
    var after := kids[..i] + [t] + kids[i..];
    if i == 0 {
      assert after[1..] == kids;
    } else {
      OthersAfterInsert(kids[1..], i - 1, t, tag, if kids[0].tag == tag && m > 0 then m - 1 else m, k);
      assert after[1..] == kids[1..][..i - 1] + [t] + kids[1..][i - 1..];
    }
  }

  /** The n-th node is empty below when all but the first n-1 are, and then all but the first n are. */
  lemma {:induction false} NthIsEmpty(kids: seq<Tree>, tag: string, n: nat, i: nat, t: Tree, k: Slot)
    requires n > 0 && NthWithTag(kids, tag, n) == Some(i) && t.tag == tag
    requires LaterEmpty(kids, tag, n - 1, k)
    ensures i < |kids| && SlotEmpty(kids[i].kids, k) && LaterEmpty(kids[i := t], tag, n, k)
  {
    if i == 0 {
      assert kids[0 := t][1..] == kids[1..];
    } else {
      NthIsEmpty(kids[1..], tag, if kids[0].tag == tag then n - 1 else n, i - 1, t, k);
      assert kids[i := t][1..] == kids[1..][i - 1 := t];
    }
  }

  lemma {:induction false} NoNthMeansFewer(kids: seq<Tree>, tag: string, n: nat)
    requires n > 0 && NthWithTag(kids, tag, n) == None
    ensures CountTag(kids, tag) < n
  {
    if kids != [] {
      NoNthMeansFewer(kids[1..], tag, if kids[0].tag == tag then n - 1 else n);
    }
  }

  lemma {:induction false} CountAfterInsert(kids: seq<Tree>, i: nat, t: Tree, tag: string)
    requires i <= |kids| && t.tag == tag
    ensures CountTag(kids[..i] + [t] + kids[i..], tag) == CountTag(kids, tag) + 1
  {
    hide CountTag;
    var after := kids[..i] + [t] + kids[i..];
    CountTagFirst(after, tag);
    if i == 0 {
      assert after[0] == t && after[1..] == kids;
    } else {
      var shorter := kids[1..][..i - 1] + [t] + kids[1..][i - 1..];
      InsertedTail(kids, i, t);
      CountAfterInsert(kids[1..], i - 1, t, tag);
      CountTagFirst(kids, tag);
      assert CountTag(shorter, tag) == CountTag(kids[1..], tag) + 1;
    }
  }

  lemma {:induction false} InsertedTail(kids: seq<Tree>, i: nat, t: Tree)
    requires 0 < i <= |kids|
    ensures var after := kids[..i] + [t] + kids[i..];
            after[0] == kids[0] && after[1..] == kids[1..][..i - 1] + [t] + kids[1..][i - 1..]
  {
  }

  lemma {:induction false} NoLaterNodes(kids: seq<Tree>, tag: string, m: nat, k: Slot)
    requires CountTag(kids, tag) <= m
    ensures LaterEmpty(kids, tag, m, k)
  {
    if kids != [] {
      NoLaterNodes(kids[1..], tag, if kids[0].tag == tag then m - 1 else m, k);
    }
  }

  // ---- The merge

  /** The state of the siblings after the first `d` items */
  ghost predicate Merging(kids: seq<Tree>, items: seq<Item<string>>, d: nat, counters: set<string>, k: Slot)
    requires d <= |items|
  {
    && SlotLeaves(kids, counters, k) == Left(items, d)
    && (forall t :: t !in counters ==> NodeValue(kids, t, k) == LastValue(items, d, t))
    && (forall t :: t in counters ==> LaterEmpty(kids, t, CountOf(CountsAfter(items, d), t), k))
  }

  lemma {:induction false} EmptyIsMerging(kids: seq<Tree>, items: seq<Item<string>>, counters: set<string>, k: Slot)
    requires SlotEmpty(kids, k)
    ensures Merging(kids, items, 0, counters, k)
  {
    NothingInEmptySlot(kids, counters, k);
    forall t
      ensures NodeValue(kids, t, k) == "" && LaterEmpty(kids, t, 0, k)
    {
      NothingInEmptyNodes(kids, t, k);
    }
  }

  lemma {:induction false} NothingInEmptyNodes(kids: seq<Tree>, tag: string, k: Slot)
    requires SlotEmpty(kids, k)
    ensures NodeValue(kids, tag, k) == "" && LaterEmpty(kids, tag, 0, k)
  {
    if kids != [] {
      assert kids[0] in kids;
      NothingInEmptyNodes(kids[1..], tag, k);
    }
  }

  lemma {:induction false} SetLeafShape(kids: seq<Tree>, tok: Token<string>, k: Slot)
    requires k > 0
    ensures var f := FirstWithTag(kids, tok.tag);
            SetLeaf(kids, tok, k) ==
            if f < |kids| then kids[f := kids[f].(vals := kids[f].vals[k := tok.val])]
            else kids[..|kids|] + [NewNode(tok.tag, k, tok.val)] + kids[|kids|..]
  {
  }

  lemma {:induction false} SetLeafValues(kids: seq<Tree>, tok: Token<string>, counters: set<string>, k: Slot)
    requires k > 0 && tok.tag !in counters
    ensures ValueOf(tok.tag, NodeValue(kids, tok.tag, k)) <= SlotLeaves(kids, counters, k)
    ensures SlotLeaves(SetLeaf(kids, tok, k), counters, k) ==
            SlotLeaves(kids, counters, k) - ValueOf(tok.tag, NodeValue(kids, tok.tag, k)) + ValueOf(tok.tag, tok.val)
  {
    hide SetLeaf, NodeValue, FirstWithTag, SlotLeaves, SlotLeavesBelow;
    NodeValueIsFirst(kids, tok.tag, k);
    SetLeafShape(kids, tok, k);
    var f := FirstWithTag(kids, tok.tag);
    if f < |kids| {
      var node := kids[f].(vals := kids[f].vals[k := tok.val]);
      SlotLeavesUpdate(kids, f, node, counters, k);
      ValueAndBelow(kids[f], counters, k);
      ValueAndBelow(node, counters, k);
    } else {
      SlotLeavesInsert(kids, |kids|, NewNode(tok.tag, k, tok.val), counters, k);
      ValueAndBelow(NewNode(tok.tag, k, tok.val), counters, k);
      NoSiblings(counters, k);
    }
  }

  lemma {:induction false} ValueAndBelow(t: Tree, counters: set<string>, k: Slot)
    requires t.tag !in counters
    ensures SlotLeavesBelow(t, counters, k) == ValueOf(t.tag, t.vals[k]) + SlotLeaves(t.kids, counters, k)
  {
  }

  lemma {:induction false} NoSiblings(counters: set<string>, k: Slot)
    ensures SlotLeaves([], counters, k) == multiset{}
  {
  }

  lemma {:induction false} SetLeafOthers(kids: seq<Tree>, tok: Token<string>, tag: string, m: nat, k: Slot)
    requires k > 0 && tok.tag != tag
    ensures NodeValue(SetLeaf(kids, tok, k), tag, k) == NodeValue(kids, tag, k)
    ensures LaterEmpty(SetLeaf(kids, tok, k), tag, m, k) == LaterEmpty(kids, tag, m, k)
  {
    hide SetLeaf, NodeValue, LaterEmpty;
    SetLeafShape(kids, tok, k);
    var f := FirstWithTag(kids, tok.tag);
    if f < |kids| {
      OthersAfterUpdate(kids, f, kids[f].(vals := kids[f].vals[k := tok.val]), tag, m, k);
    } else {
      OthersAfterInsert(kids, |kids|, NewNode(tok.tag, k, tok.val), tag, m, k);
    }
  }

  lemma {:induction false} LeafStepsValues(items: seq<Item<string>>, d: nat)
    requires d < |items| && items[d].Leaf?
    ensures CountsAfter(items, d + 1) == CountsAfter(items, d)
    ensures forall t :: LastValue(items, d + 1, t) == if t == items[d].tok.tag then items[d].tok.val
        else LastValue(items, d, t)
  {
  }

  lemma {:induction false} LeafKeepsMerging(kids: seq<Tree>, items: seq<Item<string>>, d: nat, counters: set<string>,
          k: Slot)
    requires k > 0 && d < |items| && items[d].Leaf? && items[d].tok.tag !in counters
    requires Merging(kids, items, d, counters, k)
    ensures Merging(SetLeaf(kids, items[d].tok, k), items, d + 1, counters, k)
  {
    hide SetLeaf, NodeValue, LaterEmpty, SlotLeaves, Left, LastValue, CountsAfter, ValueOf;
    var tok := items[d].tok;
    LeftStep(items, d);
    LeafStepsValues(items, d);
    var after := SetLeaf(kids, tok, k);
    SetLeafValues(kids, tok, counters, k);
    SetLeafNodeValue(kids, tok, k);
    forall t | t != tok.tag
      ensures NodeValue(after, t, k) == NodeValue(kids, t, k)
      ensures LaterEmpty(after, t, CountOf(CountsAfter(items, d), t), k) == LaterEmpty(kids, t,
          CountOf(CountsAfter(items, d), t), k)
    {
      SetLeafOthers(kids, tok, t, CountOf(CountsAfter(items, d), t), k);
    }
  }

  /** An instance: its node is a new one or one that is empty below. */
  lemma {:induction false} PlacedIsEmpty(kids: seq<Tree>, tok: Token<string>, n: nat, k: Slot)
    requires k > 0 && n > 0 && LaterEmpty(kids, tok.tag, n - 1, k)
    ensures var p := Place(kids, tok, k, n); SlotEmpty(p.kids[p.at].kids, k) && p.kids[p.at].tag == tok.tag
  {
    hide LaterEmpty, SlotEmpty;
    NoneEmpty(k);
    if NthWithTag(kids, tok.tag, n).Some? {
      var i := NthWithTag(kids, tok.tag, n).value;
      NthIsEmpty(kids, tok.tag, n, i, kids[i], k);
    }
  }

  lemma {:induction false} NoneEmpty(k: Slot)
    ensures SlotEmpty([], k)
  {
  }

  /** ... and what happens to the siblings when the body has been merged into it. */
  lemma {:induction false} PlacedValues(kids: seq<Tree>, tok: Token<string>, n: nat, merged: seq<Tree>,
          counters: set<string>, k: Slot)
    requires k > 0 && n > 0 && LaterEmpty(kids, tok.tag, n - 1, k) && tok.tag in counters
    ensures var p := Place(kids, tok, k, n);
            var after := p.kids[p.at := p.kids[p.at].(kids := merged)];
            SlotLeaves(after, counters, k) == SlotLeaves(kids, counters, k) + SlotLeaves(merged, counters, k)
            && LaterEmpty(after, tok.tag, n, k)
  {
    hide LaterEmpty, SlotEmpty, SlotLeaves, CountTag;
    var p := Place(kids, tok, k, n);
    var node := p.kids[p.at].(kids := merged);
    if NthWithTag(kids, tok.tag, n).Some? {
      var i := NthWithTag(kids, tok.tag, n).value;
      NthIsEmpty(kids, tok.tag, n, i, node, k);
      SlotLeavesUpdate(kids, i, node, counters, k);
      NothingInEmptySlot(kids[i].kids, counters, k);
    } else {
      var ref := InsertPosition(kids, tok.tag);
      assert p.kids[p.at := node] == kids[..ref] + [node] + kids[ref..];
      SlotLeavesInsert(kids, ref, node, counters, k);
      NoNthMeansFewer(kids, tok.tag, n);
      CountAfterInsert(kids, ref, node, tok.tag);
      NoLaterNodes(p.kids[p.at := node], tok.tag, n, k);
    }
  }

  lemma {:induction false} PlacedOthers(kids: seq<Tree>, tok: Token<string>, n: nat, merged: seq<Tree>, tag: string,
          m: nat, k: Slot)
    requires k > 0 && n > 0 && tok.tag != tag
    ensures var p := Place(kids, tok, k, n);
            var after := p.kids[p.at := p.kids[p.at].(kids := merged)];
            NodeValue(after, tag, k) == NodeValue(kids, tag, k) && LaterEmpty(after, tag, m, k) == LaterEmpty(kids,
                tag, m, k)
  {
    hide LaterEmpty, NodeValue;
    var p := Place(kids, tok, k, n);
    var node := p.kids[p.at].(kids := merged);
    if NthWithTag(kids, tok.tag, n).Some? {
      OthersAfterUpdate(kids, p.at, node, tag, m, k);
    } else {
      var ref := InsertPosition(kids, tok.tag);
      assert p.kids[p.at := node] == kids[..ref] + [node] + kids[ref..];
      OthersAfterInsert(kids, ref, node, tag, m, k);
    }
  }

  lemma {:induction false} InstKeepsMerging(kids: seq<Tree>, items: seq<Item<string>>, d: nat, merged: seq<Tree>,
          counters: set<string>, k: Slot)
    requires k > 0 && d < |items| && items[d].Inst? && items[d].tok.tag in counters
    requires Merging(kids, items, d, counters, k)
    requires SlotLeaves(merged, counters, k) == Left(items[d].body, |items[d].body|)
    ensures var p := Place(kids, items[d].tok, k, CountOf(CountsAfter(items, d), items[d].tok.tag) + 1);
            Merging(p.kids[p.at := p.kids[p.at].(kids := merged)], items, d + 1, counters, k)
  {
    hide LaterEmpty, NodeValue, SlotLeaves, Place;
    var tok := items[d].tok;
    var counts := CountsAfter(items, d);
    var n := CountOf(counts, tok.tag) + 1;
    var p := Place(kids, tok, k, n);
    var after := p.kids[p.at := p.kids[p.at].(kids := merged)];
    PlacedValues(kids, tok, n, merged, counters, k);
    forall t | t != tok.tag
      ensures NodeValue(after, t, k) == NodeValue(kids, t, k)
      ensures LaterEmpty(after, t, CountOf(counts, t), k) == LaterEmpty(kids, t, CountOf(counts, t), k)
    {
      PlacedOthers(kids, tok, n, merged, t, CountOf(counts, t), k);
    }
  }

  lemma {:induction false} MergeItemKeepsMerging(kids: seq<Tree>, items: seq<Item<string>>, d: nat,
          counters: set<string>, k: Slot)
    requires k > 0 && d < |items| && Separated(items, counters) && Merging(kids, items, d, counters, k)
    ensures Merging(MergeItem(kids, items[d], CountsAfter(items, d), k), items, d + 1, counters, k)
    decreases items, |items| - d, 0
  {
    hide Merge, CountsAfter, Merging, SlotLeaves, Place, Left;
    MergingMeans(kids, items, d, counters, k);
    var item := items[d];
    assert item in items;
    if item.Leaf? {
      LeafKeepsMerging(kids, items, d, counters, k);
      MergeLeafItem(kids, item.tok, CountsAfter(items, d), k);
    } else {
      var n := CountOf(CountsAfter(items, d), item.tok.tag) + 1;
      var p := Place(kids, item.tok, k, n);
      PlacedIsEmpty(kids, item.tok, n, k);
      EmptyIsMerging(p.kids[p.at].kids, item.body, counters, k);
      MergeLeaves(p.kids[p.at].kids, item.body, 0, counters, k);
      assert item.body[0..] == item.body;
      NoCounts(item.body);
      InstKeepsMerging(kids, items, d, Merge(p.kids[p.at].kids, item.body, map[], k), counters, k);
      MergeInstItem(kids, item.tok, item.body, CountsAfter(items, d), k);
    }
  }

  /** After the merge the slot holds the values that are left of the items, and no others. */
  lemma {:induction false} MergeLeaves(kids: seq<Tree>, items: seq<Item<string>>, d: nat, counters: set<string>,
          k: Slot)
    requires k > 0 && d <= |items| && Separated(items, counters) && Merging(kids, items, d, counters, k)
    ensures var merged := Merge(kids, items[d..], CountsAfter(items, d), k);
            SlotLeaves(merged, counters, k) == Left(items, |items|) && Merging(merged, items, |items|, counters, k)
    decreases items, |items| - d, 1
  {
    hide Merge, MergeItem, CountsAfter, Merging, SlotLeaves, Left;
    MergeRest(kids, items, d, k);
    MergingMeans(kids, items, d, counters, k);
    if d < |items| {
      MergeItemKeepsMerging(kids, items, d, counters, k);
      MergeLeaves(MergeItem(kids, items[d], CountsAfter(items, d), k), items, d + 1, counters, k);
    }
  }

  lemma {:induction false} MergingMeans(kids: seq<Tree>, items: seq<Item<string>>, d: nat, counters: set<string>,
          k: Slot)
    requires d <= |items| && Merging(kids, items, d, counters, k)
    ensures SlotLeaves(kids, counters, k) == Left(items, d)
    ensures forall t :: t in counters ==> LaterEmpty(kids, t, CountOf(CountsAfter(items, d), t), k)
  {
  }

  lemma {:induction false} MergeInstItem(kids: seq<Tree>, tok: Token<string>, body: seq<Item<string>>, counts: Counts,
          k: Slot)
    ensures var p := Place(kids, tok, k, CountOf(counts, tok.tag) + 1);
            MergeItem(kids, Inst(tok, body), counts, k) ==
            p.kids[p.at := p.kids[p.at].(kids := Merge(p.kids[p.at].kids, body, map[], k))]
  {
    hide Merge, Place;
  }

  // ---- Nothing is lost

  /** Of the leaves of a level with one tag, only the last may have a value. */
  predicate NothingDisplaced(items: seq<Item<string>>, d: nat)
    requires d <= |items|
  {
    forall i, j :: 0 <= i < j < d && items[i].Leaf? && items[j].Leaf? && TagOf(items[i]) == TagOf(items[j]) ==>
      items[i].tok.val == ""
  }

  predicate NothingDisplacedBelow(items: seq<Item<string>>, d: nat)
    requires d <= |items|
    decreases items
  {
    NothingDisplaced(items, d)
    && forall i :: 0 <= i < d && items[i].Inst? ==> NothingDisplacedBelow(items[i].body, |items[i].body|)
  }

  lemma {:induction false} LastIsLeft(items: seq<Item<string>>, d: nat, tag: string)
    requires d <= |items|
    ensures ValueOf(tag, LastValue(items, d, tag)) <= Left(items, d)
  {
    hide Left, ValueOf;
    if d > 0 {
      LastIsLeft(items, d - 1, tag);
      LeftStep(items, d - 1);
      if items[d - 1].Leaf? && items[d - 1].tok.tag != tag {
        var tok := items[d - 1].tok;
        OtherTagsStay(Left(items, d - 1), tag, LastValue(items, d - 1, tag), tok.tag, LastValue(items, d - 1, tok.tag));
      }
    } else {
      ValueSize(tag, "");
    }
  }

  lemma {:induction false} OtherTagsStay(a: multiset<Token<string>>, tag: string, val: string, tag': string,
          val': string)
    requires tag != tag' && ValueOf(tag, val) <= a
    ensures ValueOf(tag, val) <= a - ValueOf(tag', val')
  {
  }

  lemma {:induction false} DisplacedByLast(items: seq<Item<string>>, d: nat)
    requires d < |items| && items[d].Leaf?
    ensures NothingDisplaced(items, d + 1) <==>
            NothingDisplaced(items, d) && LastValue(items, d, items[d].tok.tag) == ""
  {
    var tag := items[d].tok.tag;
    if exists i :: 0 <= i < d && items[i].Leaf? && items[i].tok.tag == tag {
      var l := LastValueIs(items, d, tag);
      assert TagOf(items[l]) == TagOf(items[d]);
      if NothingDisplaced(items, d) && items[l].tok.val == "" {
        forall i | 0 <= i < d && items[i].Leaf? && TagOf(items[i]) == tag
          ensures items[i].tok.val == ""
        {
          if i < l {
            assert TagOf(items[i]) == TagOf(items[l]);
          }
        }
      }
    } else {
      NoLastValue(items, d, tag);
    }
  }

  lemma {:induction false} NoLastValue(items: seq<Item<string>>, d: nat, tag: string)
    requires d <= |items| && forall i :: 0 <= i < d && items[i].Leaf? ==> items[i].tok.tag != tag
    ensures LastValue(items, d, tag) == ""
  {
    if d > 0 {
      NoLastValue(items, d - 1, tag);
    }
  }

  lemma {:induction false} DisplacedBelowStep(items: seq<Item<string>>, d: nat)
    requires d < |items|
    ensures items[d].Leaf? ==> (NothingDisplacedBelow(items, d + 1) <==>
              NothingDisplacedBelow(items, d) && LastValue(items, d, items[d].tok.tag) == "")
    ensures items[d].Inst? ==> (NothingDisplacedBelow(items, d + 1) <==>
              NothingDisplacedBelow(items, d) && NothingDisplacedBelow(items[d].body, |items[d].body|))
  {
    if items[d].Leaf? {
      DisplacedByLast(items, d);
    }
  }

  lemma {:induction false} LeavesStep(items: seq<Item<string>>, d: nat)
    requires d < |items|
    ensures NonEmpty(Leaves(items[..d + 1])) == NonEmpty(Leaves(items[..d])) + NonEmpty(LeavesOf(items[d]))
  {
    hide LeavesOf, Leaves, NonEmpty;
    assert items[..d + 1] == items[..d] + [items[d]];
    LeavesAppend(items[..d], [items[d]]);
    SingleItem(items[d]);
    NonEmptyAppend(Leaves(items[..d]), LeavesOf(items[d]));
  }

  lemma {:induction false} SingleItem(item: Item<string>)
    ensures Leaves([item]) == LeavesOf(item)
  {
    assert [item][1..] == [];
    assert Leaves([item]) == LeavesOf(item) + Leaves([]);
  }

  lemma {:induction false} OneLeaf(tok: Token<string>)
    ensures NonEmpty(LeavesOf(Leaf(tok))) == ValueOf(tok.tag, tok.val)
  {
    assert NonEmpty([tok]) == ValueOf(tok.tag, tok.val) + NonEmpty([tok][1..]);
  }

  lemma {:induction false} NoLeaves(items: seq<Item<string>>)
    ensures NonEmpty(Leaves(items[..0])) == multiset{} && Left(items, 0) == multiset{} && NothingDisplacedBelow(items,
        0)
  {
  }

  lemma {:induction false} LeftStep(items: seq<Item<string>>, d: nat)
    requires d < |items|
    ensures Left(items, d + 1) ==
            match items[d]
            case Leaf(tok) => Left(items, d) - ValueOf(tok.tag, LastValue(items, d, tok.tag)) + ValueOf(tok.tag,
                tok.val)
            case Inst(_, body) => Left(items, d) + Left(body, |body|)
  {
  }

  /** What is left are values of the items, and all of them exactly when none is displaced. */
  lemma {:induction false} LeftOfItems(items: seq<Item<string>>, d: nat)
    requires d <= |items|
    ensures Left(items, d) <= NonEmpty(Leaves(items[..d]))
    ensures Left(items, d) == NonEmpty(Leaves(items[..d])) <==> NothingDisplacedBelow(items, d)
    decreases items, d
  {
    hide Left, NonEmpty, Leaves, LeavesOf, NothingDisplacedBelow, ValueOf, LastValue;
    NoLeaves(items);
    if d > 0 {
      var e := d - 1;
      LeftOfItems(items, e);
      LeavesStep(items, e);
      LeftStep(items, e);
      DisplacedBelowStep(items, e);
      match items[e] {
        case Leaf(tok) =>
          OneLeaf(tok);
          LastIsLeft(items, e, tok.tag);
          ValueSize(tok.tag, LastValue(items, e, tok.tag));
          DisplaceOne(Left(items, e), NonEmpty(Leaves(items[..e])), ValueOf(tok.tag, LastValue(items, e, tok.tag)),
                      ValueOf(tok.tag, tok.val));
        case Inst(tok, body) =>
          assert items[e] in items && body[..|body|] == body;
          LeftOfItems(body, |body|);
          InstLeaves(tok, body);
          SumOfParts(Left(items, e), NonEmpty(Leaves(items[..e])), Left(body, |body|), NonEmpty(Leaves(body)));
      }
    }
  }

  lemma {:induction false} InstLeaves(tok: Token<string>, body: seq<Item<string>>)
    ensures LeavesOf(Inst(tok, body)) == Leaves(body)
  {
  }

  lemma {:induction false} ValueSize(tag: string, val: string)
    ensures ValueOf(tag, val) == multiset{} <==> val == ""
  {
  }

  lemma {:induction false} DisplaceOne<T>(a: multiset<T>, b: multiset<T>, gone: multiset<T>, more: multiset<T>)
    requires gone <= a <= b
    ensures a - gone + more <= b + more
    ensures a - gone + more == b + more <==> a == b && gone == multiset{}
  {
    if a - gone + more == b + more {
      forall x
        ensures a[x] == b[x] && gone[x] == 0
      {
        assert (a - gone + more)[x] == (b + more)[x];
      }
    }
  }

  lemma {:induction false} SumOfParts<T>(a: multiset<T>, b: multiset<T>, c: multiset<T>, d: multiset<T>)
    requires a <= b && c <= d
    ensures a + c <= b + d && (a + c == b + d <==> a == b && c == d)
  {
    if a + c == b + d {
      forall x
        ensures a[x] == b[x] && c[x] == d[x]
      {
        assert (a + c)[x] == (b + d)[x];
      }
    }
  }

  // ---- Main results

  /** Merging separated items into a slot that is empty everywhere: whatever the tree, the slot then
      holds nothing but values of the items, each at most as often as it occurs there; and all of them
      exactly when no value is displaced by a later leaf of its level with the same tag. */
  lemma {:induction false} MergeConservesItems(kids: seq<Tree>, items: seq<Item<string>>, counters: set<string>,
          k: Slot)
    requires k > 0 && SlotEmpty(kids, k) && Separated(items, counters)
    ensures var held := SlotLeaves(Merge(kids, items, map[], k), counters, k);
            var sent := NonEmpty(Leaves(items));
            held <= sent && (held == sent <==> NothingDisplacedBelow(items, |items|))
  {
    hide Merge, SlotLeaves, NonEmpty, Merging, Left, Leaves, NothingDisplacedBelow, Separated;
    EmptyIsMerging(kids, items, counters, k);
    MergeLeaves(kids, items, 0, counters, k);
    NoCounts(items);
    assert items[0..] == items && items[..|items|] == items;
    LeftOfItems(items, |items|);
  }

  /** ... and inside repeating groups nothing is displaced. */
  lemma {:induction false} MergeConserves(kids: seq<Tree>, toks: seq<Token<string>>, groups: Groups<string>, k: Slot)
    requires k > 0 && SlotEmpty(kids, k)
    ensures var items := Parse(toks, groups, 0, None).items;
            var held := SlotLeaves(Merge(kids, items, map[], k), groups.Keys, k);
            var sent := NonEmpty(NonCounters(toks, groups, 0, |toks|));
            held <= sent && (held == sent <==> NothingDisplaced(items, |items|))
  {
    hide Merge, SlotLeaves, NonEmpty, NonCounters, NothingDisplaced, NothingDisplacedBelow, Shaped, Separated;
    var items := Parse(toks, groups, 0, None).items;
    ParseShapes(toks, groups, 0, None);
    ParseConserves(toks, groups);
    MergeConservesItems(kids, items, groups.Keys, k);
    OnlyTopDisplaces(items, groups);
  }

  /** Tag 58 twice at the top level: the slot holds the second value and has lost the first. */
  lemma {:induction false} RepeatedTagLoses(kids: seq<Tree>, groups: Groups<string>, k: Slot)
    requires k > 0 && SlotEmpty(kids, k) && "58" !in groups
    ensures var items := Parse(REPEATED, groups, 0, None).items;
            SlotLeaves(Merge(kids, items, map[], k), groups.Keys, k) == multiset{Token("58", "b")}
    ensures NonEmpty(NonCounters(REPEATED, groups, 0, 2)) == multiset{Token("58", "a"), Token("58", "b")}
  {
    hide Parse, Merge, SlotLeaves, Merging;
    ParseRepeated(groups);
    var items := Parse(REPEATED, groups, 0, None).items;
    EmptyIsMerging(kids, items, groups.Keys, k);
    MergeLeaves(kids, items, 0, groups.Keys, k);
    NoCounts(items);
    assert items[0..] == items;
    LeftOfRepeated(items);
    RepeatedNonCounters(groups);
  }

  lemma {:induction false} LeftOfRepeated(items: seq<Item<string>>)
    requires items == [Leaf(REPEATED[0]), Leaf(REPEATED[1])]
    ensures Left(items, 2) == multiset{Token("58", "b")}
  {
    LeftStep(items, 0);
    LeftStep(items, 1);
    assert Left(items, 0) == multiset{};
  }

  lemma {:induction false} RepeatedNonCounters(groups: Groups<string>)
    requires "58" !in groups
    ensures NonEmpty(NonCounters(REPEATED, groups, 0, 2)) == multiset{Token("58", "a"), Token("58", "b")}
  {
    assert NonCounters(REPEATED, groups, 2, 2) == [];
    assert NonCounters(REPEATED, groups, 1, 2) == [REPEATED[1]];
    assert NonCounters(REPEATED, groups, 0, 2) == [REPEATED[0]] + [REPEATED[1]];
    NonEmptyAppend([REPEATED[0]], [REPEATED[1]]);
    OneToken("58", "a");
    OneToken("58", "b");
  }

  lemma {:induction false} OnlyTopDisplaces(items: seq<Item<string>>, groups: Groups<string>)
    requires Shaped(items, groups)
    ensures NothingDisplacedBelow(items, |items|) <==> NothingDisplaced(items, |items|)
    decreases items
  {
    forall i | 0 <= i < |items| && items[i].Inst?
      ensures NothingDisplacedBelow(items[i].body, |items[i].body|)
    {
      assert items[i] in items;
      OnlyTopDisplaces(items[i].body, groups);
    }
  }

  lemma {:induction false} SlotZero(trees: seq<Tree>, counters: set<string>)
    ensures SlotLeaves(trees, counters, 0) == NonEmpty(TreeLeaves(trees, counters))
    decreases trees
  {
    hide NonEmpty, ValueOf;
    if trees == [] {
      NoTokens();
    } else {
      var t := trees[0];
      var own: seq<Token<string>> := if t.tag in counters then [] else [Token(t.tag, t.vals[0])];
      SlotZero(t.kids, counters);
      SlotZero(trees[1..], counters);
      NonEmptyAppend(own, TreeLeaves(t.kids, counters));
      NonEmptyAppend(LeavesBelow(t, counters), TreeLeaves(trees[1..], counters));
      NoTokens();
      OneToken(t.tag, t.vals[0]);
    }
  }

  lemma {:induction false} NoTokens()
    ensures NonEmpty([]) == multiset{}
  {
  }

  lemma {:induction false} OneToken(tag: string, val: string)
    ensures NonEmpty([Token(tag, val)]) == ValueOf(tag, val)
  {
    assert [Token(tag, val)][1..] == [];
  }

  lemma {:induction false} BuiltSlotsEmpty(items: seq<Item<string>>, k: Slot)
    requires k > 0
    ensures SlotEmpty(Rendered(items), k)
    decreases items
  {
    var trees := Rendered(items);
    RenderedIndex(items);
    forall j | 0 <= j < |items|
      ensures trees[j].vals[k] == "" && SlotEmpty(trees[j].kids, k)
    {
      if items[j].Inst? {
        assert items[j] in items;
        BuiltSlotsEmpty(items[j].body, k);
      }
    }
  }

  lemma {:induction false} NewNodesElsewhere(t: Tree, counters: set<string>, k: Slot, other: Slot)
    requires OnlySlot(t, k) && k != other
    ensures SlotEmpty([t], other)
    decreases t
  {
    forall kid | kid in t.kids
      ensures kid.vals[other] == "" && SlotEmpty(kid.kids, other)
    {
      NewNodesElsewhere(kid, counters, k, other);
      assert kid in [kid];
    }
  }

  /** An extension in one slot leaves the values of every other slot as they are. */
  lemma {:induction false} ExtendsKeepsValues(a: seq<Tree>, b: seq<Tree>, counters: set<string>, k: Slot, other: Slot)
    requires ExtendsAll(a, b, k) && k != other
    ensures SlotLeaves(b, counters, other) == SlotLeaves(a, counters, other)
    ensures SlotEmpty(a, other) ==> SlotEmpty(b, other)
    decreases b
  {
    if b != [] {
      if a != [] && Extends(a[0], b[0], k) && ExtendsAll(a[1..], b[1..], k) {
        ExtendsKeepsValues(a[0].kids, b[0].kids, counters, k, other);
        ExtendsKeepsValues(a[1..], b[1..], counters, k, other);
        EmptyCons(a, other);
        EmptyCons(b, other);
      } else {
        ExtendsKeepsValues(a, b[1..], counters, k, other);
        NewNodesElsewhere(b[0], counters, k, other);
        NothingInEmptySlot([b[0]], counters, other);
        assert SlotLeaves([b[0]], counters, other) == SlotLeavesBelow(b[0], counters, other) + SlotLeaves([b[0]][1..],
            counters, other);
        EmptyCons(b, other);
        assert b[0] in [b[0]];
      }
    }
  }

  lemma {:induction false} EmptyCons(a: seq<Tree>, k: Slot)
    requires a != []
    ensures SlotEmpty(a, k) <==> a[0].vals[k] == "" && SlotEmpty(a[0].kids, k) && SlotEmpty(a[1..], k)
  {
    assert a[0] in a;
    assert forall t <- a :: t == a[0] || t in a[1..];
  }

  /** The tree of several messages: the first is built in slot 0, the others are merged in turn. */
  function MergeAll(msgs: seq<seq<Token<string>>>, groups: Groups<string>): seq<Tree>
    requires |msgs| <= SIZE
  {
    if msgs == [] then []
    else
      var last := |msgs| - 1;
      Merge(MergeAll(msgs[..last], groups), Parse(msgs[last], groups, 0, None).items, map[], last)
  }

  lemma {:induction false} MergeAllStep(msgs: seq<seq<Token<string>>>, next: seq<Token<string>>, groups: Groups<string>)
    requires |msgs| < SIZE
    ensures MergeAll(msgs + [next], groups) ==
            Merge(MergeAll(msgs, groups), Parse(next, groups, 0, None).items, map[], |msgs|)
    ensures msgs == [] ==> MergeAll(msgs, groups) == []
  {
    hide Merge, Parse;
    assert (msgs + [next])[..|msgs|] == msgs;
  }

  /** Whether slot i holds the values of the i-th message */
  predicate Holds(trees: seq<Tree>, toks: seq<Token<string>>, groups: Groups<string>, i: Slot) {
    var items := Parse(toks, groups, 0, None).items;
    var held := SlotLeaves(trees, groups.Keys, i);
    var sent := NonEmpty(NonCounters(toks, groups, 0, |toks|));
    held <= sent && (held == sent <==> i == 0 || NothingDisplaced(items, |items|))
  }

  /** Over any run of merges every slot holds the values of its own message, and no others. */
  lemma {:induction false} EveryMessageIsHeld(msgs: seq<seq<Token<string>>>, groups: Groups<string>)
    requires |msgs| <= SIZE
    ensures forall i :: 0 <= i < |msgs| ==> Holds(MergeAll(msgs, groups), msgs[i], groups, i)
    ensures forall i :: |msgs| <= i < SIZE ==> SlotEmpty(MergeAll(msgs, groups), i)
    decreases |msgs|
  {
    hide SlotEmpty, Merge, Parse, Holds;
    if msgs == [] {
      forall i | 0 <= i < SIZE
        ensures SlotEmpty([], i)
      {
        NoneEmpty(i);
      }
    } else {
      var last := |msgs| - 1;
      EveryMessageIsHeld(msgs[..last], groups);
      assert forall i :: 0 <= i < last ==> msgs[..last][i] == msgs[i];
      if last == 0 {
        FirstIsHeld(msgs[0], groups);
      } else {
        HoldsAfterMerge(MergeAll(msgs[..last], groups), msgs, last, groups);
      }
    }
  }

  /** One more merge: the earlier messages are still held, and now this one is, too. */
  lemma {:induction false} HoldsAfterMerge(before: seq<Tree>, msgs: seq<seq<Token<string>>>, last: Slot,
          groups: Groups<string>)
    requires 0 < last < |msgs| <= SIZE && SlotEmpty(before, last)
    requires forall i :: 0 <= i < last ==> Holds(before, msgs[i], groups, i)
    ensures var after := Merge(before, Parse(msgs[last], groups, 0, None).items, map[], last);
            (forall i :: 0 <= i <= last ==> Holds(after, msgs[i], groups, i))
            && forall i :: 0 <= i < SIZE && i != last && SlotEmpty(before, i) ==> SlotEmpty(after, i)
  {
    hide SlotEmpty, SlotLeaves, Merge, NonEmpty, NonCounters, NothingDisplaced, Parse, ExtendsAll, Holds;
    var items := Parse(msgs[last], groups, 0, None).items;
    var after := Merge(before, items, map[], last);
    MergedIsHeld(before, msgs[last], groups, last);
    MergeExtends(before, items, map[], last);
    forall i | 0 <= i < SIZE && i != last
      ensures SlotEmpty(before, i) ==> SlotEmpty(after, i)
      ensures i < last ==> Holds(after, msgs[i], groups, i)
    {
      ExtendsKeepsValues(before, after, groups.Keys, last, i);
      if i < last {
        SameLeavesHold(before, after, msgs[i], groups, i);
      }
    }
  }

  lemma {:induction false} MergedIsHeld(before: seq<Tree>, toks: seq<Token<string>>, groups: Groups<string>, k: Slot)
    requires k > 0 && SlotEmpty(before, k)
    ensures Holds(Merge(before, Parse(toks, groups, 0, None).items, map[], k), toks, groups, k)
  {
    hide SlotEmpty, SlotLeaves, Merge, NonEmpty, NonCounters, NothingDisplaced, Parse;
    MergeConserves(before, toks, groups, k);
  }

  lemma {:induction false} SameLeavesHold(a: seq<Tree>, b: seq<Tree>, toks: seq<Token<string>>,
          groups: Groups<string>, i: Slot)
    requires Holds(a, toks, groups, i) && SlotLeaves(a, groups.Keys, i) == SlotLeaves(b, groups.Keys, i)
    ensures Holds(b, toks, groups, i)
  {
    hide SlotLeaves, NonEmpty, NonCounters, NothingDisplaced, Parse;
  }

  lemma {:induction false} FirstIsHeld(toks: seq<Token<string>>, groups: Groups<string>)
    ensures var built := Merge([], Parse(toks, groups, 0, None).items, map[], 0);
            Holds(built, toks, groups, 0) && forall i :: 1 <= i < SIZE ==> SlotEmpty(built, i)
  {
    hide SlotLeaves, SlotEmpty, Merge, NonEmpty, NonCounters, NothingDisplaced, Parse, TreeLeaves;
    var items := Parse(toks, groups, 0, None).items;
    BuiltTree(toks, groups);
    BuildAppends([], items, map[]);
    assert Merge([], items, map[], 0) == Rendered(items);
    SlotZero(Rendered(items), groups.Keys);
    forall i | 1 <= i < SIZE
      ensures SlotEmpty(Rendered(items), i)
    {
      BuiltSlotsEmpty(items, i);
    }
  }
}
