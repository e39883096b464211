/** The nodes of group instances after a merge: which node every instance is read into, and what becomes
    of it. */
module FixMergeNodes {
  import opened Wrappers
  import opened FixGroups
  import opened FixTree
  import opened FixSelfMerge
  import opened FixMergeShape
  import opened FixMergeValues

  // ---- Nodes by number

  /** The n-th sibling with the tag, counted from 1 */
  function NthNode(kids: seq<Tree>, tag: string, n: nat): Option<Tree> {
    var i := NthWithTag(kids, tag, n);
    if i.None? then None else Some(kids[i.value])
  }

  /** The number of an instance among those of its counter on its level, counted from 1 */
  function Ordinal(items: seq<Item<string>>, j: nat): (n: nat)
    requires j < |items|
    ensures n > 0
  {
    CountOf(CountsAfter(items, j), items[j].tok.tag) + 1
  }

  /** The number of instances of a counter */
  function Instances(items: seq<Item<string>>, c: string): nat {
    CountOf(CountsAfter(items, |items|), c)
  }

  /** The n-th node of the counter, or a new one with the counter's value in slot k */
  function NodeAt(kids: seq<Tree>, tok: Token<string>, n: nat, k: Slot): (t: Tree)
    ensures t.tag == tok.tag
  {
    var node := NthNode(kids, tok.tag, n);
    if node.Some? then node.value else NewNode(tok.tag, k, tok.val)
  }

  /** Replace the n-th node of a counter, or insert a node when there are fewer. */
  function Put(kids: seq<Tree>, n: nat, node: Tree): seq<Tree> {
    match NthWithTag(kids, node.tag, n)
    case Some(i) => kids[i := node]
    case None => var ref := InsertPosition(kids, node.tag); kids[..ref] + [node] + kids[ref..]
  }

  /** An instance is read into the node of its number. A node that is there already keeps its values,
      also the one of the counter itself; a new node has the counter's value in slot k and no other. */
  lemma {:induction false} MergeItemIsPut(kids: seq<Tree>, tok: Token<string>, body: seq<Item<string>>,
          counts: Counts, k: Slot)
    requires k > 0
    ensures var n := CountOf(counts, tok.tag) + 1;
            var node := NodeAt(kids, tok, n, k);
            MergeItem(kids, Inst(tok, body), counts, k) == Put(kids, n, node.(kids := Merge(node.kids, body, map[], k)))
  {
    hide Merge, NthWithTag, InsertPosition;
  }

  lemma {:induction false} NthMeans(kids: seq<Tree>, tag: string, n: nat, i: nat)
    requires n > 0 && NthWithTag(kids, tag, n) == Some(i)
    ensures i < |kids| && CountTag(kids[..i], tag) == n - 1 && n <= CountTag(kids, tag)
  {
    hide NthWithTag, CountTag;
    NthUnfolds(kids, tag, n);
    CountTagFirst(kids, tag);
    if i == 0 {
      NothingCounted(kids[..0], tag);
    } else {
      NthMeans(kids[1..], tag, if kids[0].tag == tag then n - 1 else n, i - 1);
      assert kids[..i][0] == kids[0] && kids[..i][1..] == kids[1..][..i - 1];
      CountTagFirst(kids[..i], tag);
    }
  }

  lemma {:induction false} NthUnfolds(kids: seq<Tree>, tag: string, n: nat)
    requires n > 0 && NthWithTag(kids, tag, n).Some?
    ensures kids != []
    ensures if kids[0].tag == tag && n == 1 then NthWithTag(kids, tag, n) == Some(0)
            else
              var r := NthWithTag(kids[1..], tag, if kids[0].tag == tag then n - 1 else n);
              r.Some? && NthWithTag(kids, tag, n) == Some(r.value + 1)
  {
  }

  lemma {:induction false} NothingCounted(kids: seq<Tree>, tag: string)
    requires kids == []
    ensures CountTag(kids, tag) == 0
  {
  }

  lemma {:induction false} NthAfterUpdate(kids: seq<Tree>, i: nat, t: Tree, tag: string, n: nat)
    requires i < |kids| && kids[i].tag == t.tag
    ensures NthWithTag(kids[i := t], tag, n) == NthWithTag(kids, tag, n)
  {
    if i == 0 {
      assert kids[0 := t][1..] == kids[1..];
    } else {
      NthAfterUpdate(kids[1..], i - 1, t, tag, if kids[0].tag == tag && n > 0 then n - 1 else n);
      assert kids[i := t][1..] == kids[1..][i - 1 := t];
    }
  }

  lemma {:induction false} NthNodeStep(kids: seq<Tree>, tag: string, n: nat)
    requires kids != [] && n > 0
    ensures NthNode(kids, tag, n) ==
            if kids[0].tag == tag && n == 1 then Some(kids[0])
            else NthNode(kids[1..], tag, if kids[0].tag == tag then n - 1 else n)
  {
  }

  lemma {:induction false} NthAfterOther(kids: seq<Tree>, i: nat, t: Tree, tag: string, n: nat)
    requires i <= |kids| && t.tag != tag && n > 0
    ensures NthNode(kids[..i] + [t] + kids[i..], tag, n) == NthNode(kids, tag, n)
  {
    hide NthNode;
    var after := kids[..i] + [t] + kids[i..];
    NthNodeStep(after, tag, n);
    if i == 0 {
      assert after[0] == t && after[1..] == kids;
    } else {
      InsertedTail(kids, i, t);
      NthNodeStep(kids, tag, n);
      if kids[0].tag != tag || n > 1 {
        NthAfterOther(kids[1..], i - 1, t, tag, if kids[0].tag == tag then n - 1 else n);
      }
    }
  }

  lemma {:induction false} NthAfterLast(kids: seq<Tree>, i: nat, t: Tree, n: nat)
    requires i <= |kids| && n > 0 && forall l :: i <= l < |kids| ==> kids[l].tag != t.tag
    ensures NthNode(kids[..i] + [t] + kids[i..], t.tag, n) ==
            if n == CountTag(kids, t.tag) + 1 then Some(t) else NthNode(kids, t.tag, n)
  {
    hide NthNode, CountTag;
    var after := kids[..i] + [t] + kids[i..];
    NthNodeStep(after, t.tag, n);
    if i == 0 {
      assert after[0] == t && after[1..] == kids;
      CountTagZero(kids, t.tag);
      NoNthNode(kids, t.tag, n);
    } else {
      InsertedTail(kids, i, t);
      CountTagFirst(kids, t.tag);
      NthNodeStep(kids, t.tag, n);
      if kids[0].tag != t.tag || n > 1 {
        NthAfterLast(kids[1..], i - 1, t, if kids[0].tag == t.tag then n - 1 else n);
      }
    }
  }

  lemma {:induction false} NoNthNode(kids: seq<Tree>, tag: string, n: nat)
    requires CountTag(kids, tag) == 0 && n > 0
    ensures NthNode(kids, tag, n) == None && (n > 1 ==> NthNode(kids, tag, n - 1) == None)
  {
    NthIsNone(kids, tag, n);
    if n > 1 {
      NthIsNone(kids, tag, n - 1);
    }
  }

  lemma {:induction false} SetLeafKeepsNth(kids: seq<Tree>, tok: Token<string>, tag: string, n: nat, k: Slot)
    requires k > 0 && tok.tag != tag && n > 0
    ensures NthNode(SetLeaf(kids, tok, k), tag, n) == NthNode(kids, tag, n)
  {
    hide SetLeaf, FirstWithTag, NthWithTag;
    SetLeafShape(kids, tok, k);
    var f := FirstWithTag(kids, tok.tag);
    if f < |kids| {
      NthAfterUpdate(kids, f, kids[f].(vals := kids[f].vals[k := tok.val]), tag, n);
    } else {
      NthAfterOther(kids, |kids|, NewNode(tok.tag, k, tok.val), tag, n);
    }
  }

  lemma {:induction false} RunEndsAtInsert(kids: seq<Tree>, tag: string)
    requires OneRun(kids, tag)
    ensures forall l :: InsertPosition(kids, tag) <= l < |kids| ==> kids[l].tag != tag
  {
    RunStartsAtFirst(kids, tag);
  }

  lemma {:induction false} SameTagsSameRun(a: seq<Tree>, b: seq<Tree>, tag: string)
    requires |a| == |b| && forall l :: 0 <= l < |a| ==> a[l].tag == b[l].tag
    requires OneRun(a, tag)
    ensures OneRun(b, tag)
  {
  }

  lemma {:induction false} OrdinalBelow(items: seq<Item<string>>, j: nat, d: nat)
    requires j < d <= |items| && items[j].Inst?
    ensures Ordinal(items, j) <= CountOf(CountsAfter(items, d), items[j].tok.tag)
    decreases d - j
  {
    if j + 1 < d {
      OrdinalBelow(items, j, d - 1);
    }
  }

  lemma {:induction false} LastInstance(items: seq<Item<string>>, d: nat, c: string) returns (j: nat)
    requires d <= |items| && CountOf(CountsAfter(items, d), c) > 0
    ensures j < d && items[j].Inst? && items[j].tok.tag == c && Ordinal(items, j) == CountOf(CountsAfter(items, d), c)
  {
    if items[d - 1].Inst? && items[d - 1].tok.tag == c {
      j := d - 1;
    } else {
      j := LastInstance(items, d - 1, c);
    }
  }

  // ---- Putting a node

  lemma {:induction false} NodeThere(kids: seq<Tree>, tag: string, n: nat)
    requires n > 0
    ensures NthWithTag(kids, tag, n).Some? <==> n <= CountTag(kids, tag)
  {
    if NthWithTag(kids, tag, n).Some? {
      NthMeans(kids, tag, n, NthWithTag(kids, tag, n).value);
    } else {
      NoNthMeansFewer(kids, tag, n);
    }
  }

  lemma {:induction false} PutNth(kids: seq<Tree>, n: nat, node: Tree, tag: string, m: nat)
    requires m > 0 && 0 < n <= CountTag(kids, node.tag) + 1
    requires OneRun(kids, node.tag) || n <= CountTag(kids, node.tag)
    ensures NthNode(Put(kids, n, node), tag, m) ==
            if tag == node.tag && m == n then Some(node) else NthNode(kids, tag, m)
  {
    hide InsertPosition, CountTag, FirstWithTag, OneRun, NthWithTag;
    NodeThere(kids, node.tag, n);
    if NthWithTag(kids, node.tag, n).Some? {
      var i := NthWithTag(kids, node.tag, n).value;
      NthAfterUpdate(kids, i, node, tag, m);
      NthMeans(kids, node.tag, n, i);
      if NthWithTag(kids, tag, m) == Some(i) {
        NthMeans(kids, tag, m, i);
      }
    } else if tag == node.tag {
      RunEndsAtInsert(kids, tag);
      NthAfterLast(kids, InsertPosition(kids, tag), node, m);
    } else {
      NthAfterOther(kids, InsertPosition(kids, node.tag), node, tag, m);
    }
  }

  lemma {:induction false} PutOtherNth(kids: seq<Tree>, n: nat, node: Tree, tag: string, m: nat)
    requires m > 0 && tag != node.tag
    ensures NthNode(Put(kids, n, node), tag, m) == NthNode(kids, tag, m)
  {
    hide InsertPosition, CountTag, FirstWithTag, NthWithTag;
    if NthWithTag(kids, node.tag, n).Some? {
      NthAfterUpdate(kids, NthWithTag(kids, node.tag, n).value, node, tag, m);
    } else {
      NthAfterOther(kids, InsertPosition(kids, node.tag), node, tag, m);
    }
  }

  lemma {:induction false} CountSameTags(a: seq<Tree>, b: seq<Tree>, tag: string)
    requires |a| == |b| && forall l :: 0 <= l < |a| ==> a[l].tag == b[l].tag
    ensures CountTag(a, tag) == CountTag(b, tag)
  {
    hide FirstWithTag;
    if a != [] {
      CountSameTags(a[1..], b[1..], tag);
    }
  }

  lemma {:induction false} CountAfterOther(kids: seq<Tree>, i: nat, t: Tree, tag: string)
    requires i <= |kids| && t.tag != tag
    ensures CountTag(kids[..i] + [t] + kids[i..], tag) == CountTag(kids, tag)
  {
    hide CountTag;
    var after := kids[..i] + [t] + kids[i..];
    CountTagFirst(after, tag);
    if i == 0 {
      assert after[0] == t && after[1..] == kids;
    } else {
      InsertedTail(kids, i, t);
      CountAfterOther(kids[1..], i - 1, t, tag);
      CountTagFirst(kids, tag);
    }
  }

  lemma {:induction false} PutCount(kids: seq<Tree>, n: nat, node: Tree, tag: string)
    requires n > 0
    ensures CountTag(Put(kids, n, node), tag) ==
            CountTag(kids, tag) + if tag == node.tag && CountTag(kids, tag) < n then 1 else 0
  {
    hide InsertPosition, CountTag, FirstWithTag, NthWithTag;
    NodeThere(kids, node.tag, n);
    if NthWithTag(kids, node.tag, n).Some? {
      CountSameTags(kids, Put(kids, n, node), tag);
    } else if tag == node.tag {
      CountAfterInsert(kids, InsertPosition(kids, tag), node, tag);
    } else {
      CountAfterOther(kids, InsertPosition(kids, node.tag), node, tag);
    }
  }

  // ---- The order of the siblings

  function Tags(kids: seq<Tree>): seq<string> {
    seq(|kids|, i requires 0 <= i < |kids| => kids[i].tag)
  }

  /** The tag is inserted at `p`: at the end when it is new, and else as many places behind the first node
      with the tag as there are nodes with it, which is the end of its run when it has one. */
  ghost predicate TagInserted(kids: seq<Tree>, after: seq<Tree>, tag: string, p: nat) {
    && p <= |kids| && Tags(after) == Tags(kids)[..p] + [tag] + Tags(kids)[p..]
    && (tag !in Tags(kids) ==> p == |kids|)
    && (OneRun(kids, tag) ==> forall l :: p <= l < |kids| ==> kids[l].tag != tag)
    && (tag in Tags(kids) && OneRun(kids, tag) ==> p > 0 && kids[p - 1].tag == tag)
    && (forall f :: 0 <= f < |kids| && kids[f].tag == tag && tag !in Tags(kids[..f]) ==>
          p == f + multiset(Tags(kids))[tag])
  }

  lemma {:induction false} CountTagIsCount(kids: seq<Tree>, tag: string)
    ensures CountTag(kids, tag) == multiset(Tags(kids))[tag]
  {
    if kids != [] {
      CountTagIsCount(kids[1..], tag);
      TagsCons(kids);
      hide Tags;
      assert multiset(Tags(kids))[tag] == multiset([kids[0].tag])[tag] + multiset(Tags(kids[1..]))[tag];
    }
  }

  lemma {:induction false} TagsCons(kids: seq<Tree>)
    requires kids != []
    ensures Tags(kids) == [kids[0].tag] + Tags(kids[1..])
  {
  }

  lemma {:induction false} FirstIs(kids: seq<Tree>, tag: string, f: nat)
    requires f < |kids| && kids[f].tag == tag && tag !in Tags(kids[..f])
    ensures FirstWithTag(kids, tag) == f
  {
    assert forall j :: 0 <= j < f ==> kids[j].tag == Tags(kids[..f])[j];
  }

  lemma {:induction false} PositionBehindFirst(kids: seq<Tree>, tag: string)
    ensures forall f :: 0 <= f < |kids| && kids[f].tag == tag && tag !in Tags(kids[..f]) ==>
              InsertPosition(kids, tag) == f + multiset(Tags(kids))[tag]
  {
    hide Tags, CountTag, FirstWithTag;
    forall f | 0 <= f < |kids| && kids[f].tag == tag && tag !in Tags(kids[..f])
      ensures InsertPosition(kids, tag) == f + multiset(Tags(kids))[tag]
    {
      FirstIs(kids, tag, f);
      CountTagIsCount(kids, tag);
    }
  }

  lemma {:induction false} InsertedTag(kids: seq<Tree>, node: Tree)
    ensures var p := InsertPosition(kids, node.tag); TagInserted(kids, kids[..p] + [node] + kids[p..], node.tag, p)
  {
    hide OneRun, CountTag;
    var tag := node.tag;
    var p := InsertPosition(kids, tag);
    var after := kids[..p] + [node] + kids[p..];
    assert Tags(after) == Tags(kids)[..p] + [tag] + Tags(kids)[p..];
    CountTagZero(kids, tag);
    if tag !in Tags(kids) {
      assert forall l :: 0 <= l < |kids| ==> kids[l].tag == Tags(kids)[l];
      FirstOfNone(kids, tag);
    } else {
      var l :| 0 <= l < |kids| && Tags(kids)[l] == tag;
      assert kids[l].tag == tag;
    }
    if OneRun(kids, tag) {
      RunStartsAtFirst(kids, tag);
    }
    PositionBehindFirst(kids, tag);
  }

  /** Reading an item either leaves the siblings as they are, if there is a node for it, or adds one. */
  lemma {:induction false} ItemSiblings(kids: seq<Tree>, item: Item<string>, counts: Counts, k: Slot)
    requires k > 0
    ensures var after, tag := MergeItem(kids, item, counts, k), item.tok.tag;
            var n := if item.Leaf? then 1 else CountOf(counts, tag) + 1;
            if n <= multiset(Tags(kids))[tag] then Tags(after) == Tags(kids)
            else exists p :: TagInserted(kids, after, tag, p)
  {
    hide InsertPosition, CountTag, Merge, NthWithTag, SetLeaf, TagInserted;
    CountTagIsCount(kids, item.tok.tag);
    match item {
      case Leaf(tok) =>
        MergeLeafItem(kids, tok, counts, k);
        SetLeafShape(kids, tok, k);
        LeafThere(kids, tok.tag);
        if FirstWithTag(kids, tok.tag) == |kids| {
          InsertedTag(kids, NewNode(tok.tag, k, tok.val));
        }
      case Inst(tok, body) =>
        var n := CountOf(counts, tok.tag) + 1;
        var node := NodeAt(kids, tok, n, k);
        MergeItemIsPut(kids, tok, body, counts, k);
        NodeThere(kids, tok.tag, n);
        InsertedTag(kids, node.(kids := Merge(node.kids, body, map[], k)));
    }
  }

  lemma {:induction false} LeafThere(kids: seq<Tree>, tag: string)
    ensures if FirstWithTag(kids, tag) < |kids| then CountTag(kids, tag) >= 1
            else CountTag(kids, tag) == 0 && InsertPosition(kids, tag) == |kids|
  {
    CountTagZero(kids, tag);
  }

  // ---- When instances stay in order

  /** The nodes of a counter are next to each other, or there is one for every instance. */
  predicate Suffices(kids: seq<Tree>, items: seq<Item<string>>, c: string) {
    OneRun(kids, c) || Instances(items, c) <= CountTag(kids, c)
  }

  lemma {:induction false} PutKeepsSuffices(kids: seq<Tree>, n: nat, node: Tree, items: seq<Item<string>>, c: string)
    requires Suffices(kids, items, c) && Suffices(kids, items, node.tag) && 0 < n <= Instances(items, node.tag)
    ensures Suffices(Put(kids, n, node), items, c)
  {
    hide InsertPosition, CountTag, FirstWithTag, NthWithTag, OneRun, Instances;
    NodeThere(kids, node.tag, n);
    PutCount(kids, n, node, c);
    if OneRun(kids, c) {
      if NthWithTag(kids, node.tag, n).Some? {
        SameTagsSameRun(kids, Put(kids, n, node), c);
      } else if c == node.tag {
        InsertExtendsRun(kids, node);
      } else {
        InsertKeepsOtherRuns(kids, node, c);
      }
    }
  }

  lemma {:induction false} SetLeafKeepsSuffices(kids: seq<Tree>, tok: Token<string>, items: seq<Item<string>>,
          c: string, k: Slot)
    requires k > 0 && tok.tag != c && Suffices(kids, items, c)
    ensures Suffices(SetLeaf(kids, tok, k), items, c)
  {
    hide SetLeaf, CountTag, FirstWithTag, OneRun, Instances, RunAt;
    SetLeafKeepsCount(kids, tok, c, k);
    SetLeafShape(kids, tok, k);
    if OneRun(kids, c) {
      if FirstWithTag(kids, tok.tag) < |kids| {
        SameTagsSameRun(kids, SetLeaf(kids, tok, k), c);
      } else {
        AppendKeepsRun(kids, NewNode(tok.tag, k, tok.val), c);
      }
    }
  }

  lemma {:induction false} AppendKeepsRun(kids: seq<Tree>, t: Tree, c: string)
    requires OneRun(kids, c) && t.tag != c
    ensures OneRun(kids[..|kids|] + [t] + kids[|kids|..], c)
  {
    hide CountTag, FirstWithTag, OneRun;
    var f, n := FirstWithTag(kids, c), CountTag(kids, c);
    RunStartsAtFirst(kids, c);
    RunAtInsert(kids, |kids|, t, c, f, n);
    RunAtIsRun(kids[..|kids|] + [t] + kids[|kids|..], c, if |kids| <= f then f + 1 else f, n);
  }

  lemma {:induction false} SetLeafKeepsCount(kids: seq<Tree>, tok: Token<string>, c: string, k: Slot)
    requires k > 0 && tok.tag != c
    ensures CountTag(SetLeaf(kids, tok, k), c) == CountTag(kids, c)
  {
    hide SetLeaf, CountTag, FirstWithTag;
    SetLeafShape(kids, tok, k);
    if FirstWithTag(kids, tok.tag) < |kids| {
      CountSameTags(kids, SetLeaf(kids, tok, k), c);
    } else {
      CountAfterOther(kids, |kids|, NewNode(tok.tag, k, tok.val), c);
    }
  }

  // ---- The merge

  /** What becomes of the node of an instance: below it the body is merged, nothing else is changed. */
  function MergedNode(kids: seq<Tree>, items: seq<Item<string>>, j: nat, k: Slot): Tree
    requires j < |items| && items[j].Inst?
  {
    var node := NodeAt(kids, items[j].tok, Ordinal(items, j), k);
    node.(kids := Merge(node.kids, items[j].body, map[], k))
  }

  /** The siblings after the first `d` items: their instances are in the nodes of their numbers, and the
      nodes of higher numbers are as they were. */
  ghost predicate Tracks(before: seq<Tree>, kids: seq<Tree>, items: seq<Item<string>>, d: nat, counters: set<string>,
          k: Slot)
    requires d <= |items|
  {
    && (forall j :: 0 <= j < d && items[j].Inst? ==>
          NthNode(kids, items[j].tok.tag, Ordinal(items, j)) == Some(MergedNode(before, items, j, k)))
    && (forall c, m :: c in counters && m > CountOf(CountsAfter(items, d), c) ==>
          NthNode(kids, c, m) == NthNode(before, c, m))
    && (forall c <- counters :: Suffices(kids, items, c))
  }

  lemma {:induction false} CountsGrow(items: seq<Item<string>>, d: nat, e: nat, c: string)
    requires d <= e <= |items|
    ensures CountOf(CountsAfter(items, d), c) <= CountOf(CountsAfter(items, e), c)
    decreases e - d
  {
    if d < e {
      CountsGrow(items, d, e - 1, c);
    }
  }

  lemma {:induction false} EnoughNodes(before: seq<Tree>, kids: seq<Tree>, items: seq<Item<string>>, d: nat,
          c: string, counters: set<string>, k: Slot)
    requires d <= |items| && Tracks(before, kids, items, d, counters, k)
    ensures CountOf(CountsAfter(items, d), c) <= CountTag(kids, c)
  {
    hide CountsAfter, NthWithTag, CountTag, MergedNode, Suffices;
    if CountOf(CountsAfter(items, d), c) > 0 {
      var j := LastInstance(items, d, c);
      assert NthNode(kids, c, Ordinal(items, j)).Some?;
      NthMeans(kids, c, Ordinal(items, j), NthWithTag(kids, c, Ordinal(items, j)).value);
    }
  }

  lemma {:induction false} LeafTracks(before: seq<Tree>, kids: seq<Tree>, items: seq<Item<string>>, d: nat,
          counters: set<string>, k: Slot)
    requires k > 0 && d < |items| && items[d].Leaf? && Separated(items, counters)
    requires Tracks(before, kids, items, d, counters, k)
    ensures Tracks(before, SetLeaf(kids, items[d].tok, k), items, d + 1, counters, k)
  {
    hide SetLeaf, NthNode, Ordinal, MergedNode, Suffices, Separated;
    var tok := items[d].tok;
    var after := SetLeaf(kids, tok, k);
    SeparatedAt(items, counters, d);
    forall j | 0 <= j < d && items[j].Inst?
      ensures NthNode(after, items[j].tok.tag, Ordinal(items, j)) == NthNode(kids, items[j].tok.tag, Ordinal(items, j))
    {
      SeparatedAt(items, counters, j);
      SetLeafKeepsNth(kids, tok, items[j].tok.tag, Ordinal(items, j), k);
    }
    forall c, m | c in counters && m > CountOf(CountsAfter(items, d), c)
      ensures NthNode(after, c, m) == NthNode(kids, c, m)
    {
      SetLeafKeepsNth(kids, tok, c, m, k);
    }
    forall c | c in counters
      ensures Suffices(after, items, c)
    {
      SetLeafKeepsSuffices(kids, tok, items, c, k);
    }
  }

  lemma {:induction false} SeparatedAt(items: seq<Item<string>>, counters: set<string>, j: nat)
    requires j < |items| && Separated(items, counters)
    ensures items[j].tok.tag in counters <==> items[j].Inst?
    ensures items[j].Inst? ==> Separated(items[j].body, counters)
  {
    assert items[j] in items;
  }

  lemma {:induction false} InstTracks(before: seq<Tree>, kids: seq<Tree>, items: seq<Item<string>>, d: nat,
          counters: set<string>, k: Slot)
    requires k > 0 && d < |items| && items[d].Inst? && Separated(items, counters)
    requires Tracks(before, kids, items, d, counters, k)
    ensures Tracks(before, MergeItem(kids, items[d], CountsAfter(items, d), k), items, d + 1, counters, k)
  {
    hide MergeItem, NthNode, Put, Suffices, CountsAfter, Merge, CountTag, OneRun, Separated;
    var tok, n := items[d].tok, Ordinal(items, d);
    var node := MergedNode(before, items, d, k);
    SeparatedAt(items, counters, d);
    MergeItemIsPut(kids, tok, items[d].body, CountsAfter(items, d), k);
    var after := Put(kids, n, node);
    EnoughNodes(before, kids, items, d, tok.tag, counters, k);
    CountsStep(items, d);
    CountsGrow(items, d + 1, |items|, tok.tag);
    SufficesMeans(kids, items, tok.tag, n);
    forall j | 0 <= j <= d && items[j].Inst?
      ensures NthNode(after, items[j].tok.tag, Ordinal(items, j)) == Some(MergedNode(before, items, j, k))
    {
      if j < d {
        OrdinalBelow(items, j, d);
      }
      PutNth(kids, n, node, items[j].tok.tag, Ordinal(items, j));
    }
    forall c, m | c in counters && m > CountOf(CountsAfter(items, d + 1), c)
      ensures NthNode(after, c, m) == NthNode(before, c, m)
    {
      PutNth(kids, n, node, c, m);
    }
    forall c | c in counters
      ensures Suffices(after, items, c)
    {
      PutKeepsSuffices(kids, n, node, items, c);
    }
  }

  lemma {:induction false} CountsStep(items: seq<Item<string>>, d: nat)
    requires d < |items|
    ensures forall c :: CountOf(CountsAfter(items, d + 1), c) ==
                        CountOf(CountsAfter(items, d), c) + if items[d].Inst? && items[d].tok.tag == c then 1 else 0
  {
  }

  lemma {:induction false} SufficesMeans(kids: seq<Tree>, items: seq<Item<string>>, c: string, n: nat)
    requires Suffices(kids, items, c) && n <= Instances(items, c)
    ensures OneRun(kids, c) || n <= CountTag(kids, c)
  {
  }

  lemma {:induction false} MergeTracks(before: seq<Tree>, kids: seq<Tree>, items: seq<Item<string>>, d: nat,
          counters: set<string>, k: Slot)
    requires k > 0 && d <= |items| && Separated(items, counters) && Tracks(before, kids, items, d, counters, k)
    ensures Tracks(before, Merge(kids, items[d..], CountsAfter(items, d), k), items, |items|, counters, k)
    decreases |items| - d
  {
    hide Merge, CountsAfter, Tracks, MergeItem, Separated;
    MergeRest(kids, items, d, k);
    if d < |items| {
      if items[d].Leaf? {
        LeafTracks(before, kids, items, d, counters, k);
        MergeLeafItem(kids, items[d].tok, CountsAfter(items, d), k);
      } else {
        InstTracks(before, kids, items, d, counters, k);
      }
      MergeTracks(before, MergeItem(kids, items[d], CountsAfter(items, d), k), items, d + 1, counters, k);
    }
  }

  /** If for every counter the nodes are next to each other or numerous enough, the n-th instance is read
      into the n-th node: one that was there keeps its values, a new one has the counter's value. */
  lemma {:induction false} MergedNodes(kids: seq<Tree>, items: seq<Item<string>>, counters: set<string>, k: Slot)
    requires k > 0 && Separated(items, counters) && forall c <- counters :: Suffices(kids, items, c)
    ensures forall j :: 0 <= j < |items| && items[j].Inst? ==>
              NthNode(Merge(kids, items, map[], k), items[j].tok.tag, Ordinal(items, j)) ==
              Some(MergedNode(kids, items, j, k))
  {
    hide Merge, CountsAfter, NthNode, Ordinal, MergedNode, Suffices;
    assert Tracks(kids, kids, items, 0, counters, k);
    MergeTracks(kids, kids, items, 0, counters, k);
    NoCounts(items);
    assert items[0..] == items;
  }

  /** The value of a counter itself in slot k: that of the message on a new node, the old one otherwise. */
  lemma {:induction false} CounterValues(kids: seq<Tree>, items: seq<Item<string>>, counters: set<string>, j: nat,
          k: Slot)
    requires k > 0 && Separated(items, counters) && (forall c <- counters :: Suffices(kids, items, c))
    requires j < |items| && items[j].Inst?
    ensures var earlier := NthNode(kids, items[j].tok.tag, Ordinal(items, j));
            var node := NthNode(Merge(kids, items, map[], k), items[j].tok.tag, Ordinal(items, j));
            node.Some? && node.value.vals[k] == if earlier.Some? then earlier.value.vals[k] else items[j].tok.val
  {
    hide Merge, Ordinal, Suffices, NthNode;
    MergedNodes(kids, items, counters, k);
  }

  // ---- The values of the counters themselves, wherever the nodes are

  /** Slot k of the siblings with the tag */
  function TagValues(kids: seq<Tree>, c: string, k: Slot): multiset<string> {
    if kids == [] then multiset{}
    else (if kids[0].tag == c then multiset{kids[0].vals[k]} else multiset{}) + TagValues(kids[1..], c, k)
  }

  /** The values of the counter that come with the instances of numbers above `n` */
  function ValuesAbove(items: seq<Item<string>>, d: nat, c: string, n: nat): multiset<string>
    requires d <= |items|
  {
    if d == 0 then multiset{}
    else
      var item := items[d - 1];
      ValuesAbove(items, d - 1, c, n)
      + if item.Inst? && item.tok.tag == c && Ordinal(items, d - 1) > n then multiset{item.tok.val} else multiset{}
  }

  lemma {:induction false} TagValuesUpdate(kids: seq<Tree>, i: nat, t: Tree, c: string, k: Slot)
    requires i < |kids| && kids[i].tag == t.tag && (t.tag == c ==> kids[i].vals[k] == t.vals[k])
    ensures TagValues(kids[i := t], c, k) == TagValues(kids, c, k)
  {
    if i == 0 {
      assert kids[0 := t][1..] == kids[1..];
    } else {
      TagValuesUpdate(kids[1..], i - 1, t, c, k);
      assert kids[i := t][1..] == kids[1..][i - 1 := t];
    }
  }

  lemma {:induction false} TagValuesInsert(kids: seq<Tree>, i: nat, t: Tree, c: string, k: Slot)
    requires i <= |kids|
    ensures TagValues(kids[..i] + [t] + kids[i..], c, k) ==
            TagValues(kids, c, k) + if t.tag == c then multiset{t.vals[k]} else multiset{}
  {
    var after := kids[..i] + [t] + kids[i..];
    if i == 0 {
      assert after[0] == t && after[1..] == kids;
    } else {
      InsertedTail(kids, i, t);
      TagValuesInsert(kids[1..], i - 1, t, c, k);
    }
  }

  lemma {:induction false} SetLeafKeepsTagValues(kids: seq<Tree>, tok: Token<string>, c: string, k: Slot)
    requires k > 0 && tok.tag != c
    ensures TagValues(SetLeaf(kids, tok, k), c, k) == TagValues(kids, c, k)
  {
    hide SetLeaf, TagValues, FirstWithTag;
    SetLeafShape(kids, tok, k);
    var f := FirstWithTag(kids, tok.tag);
    if f < |kids| {
      TagValuesUpdate(kids, f, kids[f].(vals := kids[f].vals[k := tok.val]), c, k);
    } else {
      TagValuesInsert(kids, |kids|, NewNode(tok.tag, k, tok.val), c, k);
    }
  }

  lemma {:induction false} PutTagValues(kids: seq<Tree>, tok: Token<string>, n: nat, below: seq<Tree>, c: string,
          k: Slot)
    requires k > 0 && n > 0
    ensures TagValues(Put(kids, n, NodeAt(kids, tok, n, k).(kids := below)), c, k) ==
            TagValues(kids, c, k) + if tok.tag == c && CountTag(kids, c) < n then multiset{tok.val} else multiset{}
  {
    hide TagValues, NthWithTag, InsertPosition, CountTag;
    var node := NodeAt(kids, tok, n, k).(kids := below);
    NodeThere(kids, tok.tag, n);
    if NthWithTag(kids, tok.tag, n).Some? {
      TagValuesUpdate(kids, NthWithTag(kids, tok.tag, n).value, node, c, k);
    } else {
      TagValuesInsert(kids, InsertPosition(kids, tok.tag), node, c, k);
    }
  }

  /** The siblings of the counter after the first `d` items, when there were `n` before */
  predicate Counting(before: seq<Tree>, kids: seq<Tree>, items: seq<Item<string>>, d: nat, c: string, k: Slot)
    requires d <= |items|
  {
    var n, met := CountTag(before, c), CountOf(CountsAfter(items, d), c);
    && CountTag(kids, c) == (if met <= n then n else met)
    && TagValues(kids, c, k) == TagValues(before, c, k) + ValuesAbove(items, d, c, n)
  }

  lemma {:induction false} ItemKeepsCounting(before: seq<Tree>, kids: seq<Tree>, items: seq<Item<string>>, d: nat,
          c: string, counters: set<string>, k: Slot)
    requires k > 0 && d < |items| && Separated(items, counters) && c in counters
    requires Counting(before, kids, items, d, c, k)
    ensures Counting(before, MergeItem(kids, items[d], CountsAfter(items, d), k), items, d + 1, c, k)
  {
    hide MergeItem, Merge, CountsAfter, TagValues, CountTag, SetLeaf, Put, NodeAt, Separated;
    SeparatedAt(items, counters, d);
    CountsStep(items, d);
    match items[d] {
      case Leaf(tok) =>
        MergeLeafItem(kids, tok, CountsAfter(items, d), k);
        SetLeafKeepsCount(kids, tok, c, k);
        SetLeafKeepsTagValues(kids, tok, c, k);
      case Inst(tok, body) =>
        var n := Ordinal(items, d);
        var below := Merge(NodeAt(kids, tok, n, k).kids, body, map[], k);
        MergeItemIsPut(kids, tok, body, CountsAfter(items, d), k);
        PutCount(kids, n, NodeAt(kids, tok, n, k).(kids := below), c);
        PutTagValues(kids, tok, n, below, c, k);
    }
  }

  lemma {:induction false} MergeKeepsCounting(before: seq<Tree>, kids: seq<Tree>, items: seq<Item<string>>, d: nat,
          c: string, counters: set<string>, k: Slot)
    requires k > 0 && d <= |items| && Separated(items, counters) && c in counters
    requires Counting(before, kids, items, d, c, k)
    ensures Counting(before, Merge(kids, items[d..], CountsAfter(items, d), k), items, |items|, c, k)
    decreases |items| - d
  {
    hide Merge, MergeItem, CountsAfter, Counting, Separated;
    MergeRest(kids, items, d, k);
    if d < |items| {
      ItemKeepsCounting(before, kids, items, d, c, counters, k);
      MergeKeepsCounting(before, MergeItem(kids, items[d], CountsAfter(items, d), k), items, d + 1, c, counters, k);
    }
  }

  /** For any tree: the nodes of a counter keep their own values in slot k, and as many are added as there
      are further instances, each with the counter's value of its instance. The value that comes with an
      instance whose node is there already is dropped. */
  lemma {:induction false} CountersKept(kids: seq<Tree>, items: seq<Item<string>>, counters: set<string>, c: string,
          k: Slot)
    requires k > 0 && Separated(items, counters) && c in counters
    ensures var merged := Merge(kids, items, map[], k);
            var n := CountTag(kids, c);
            TagValues(merged, c, k) == TagValues(kids, c, k) + ValuesAbove(items, |items|, c, n)
            && CountTag(merged, c) == if Instances(items, c) <= n then n else Instances(items, c)
  {
    hide Merge, CountsAfter, TagValues, CountTag, Separated;
    NoCounts(items);
    assert CountOf(CountsAfter(items, 0), c) == 0 && items[0..] == items;
    MergeKeepsCounting(kids, kids, items, 0, c, counters, k);
  }
}
