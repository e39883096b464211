/** The tree of a FIX message with one value slot for each merged message, and what reading a list of
    items into one of the slots does to it. */
module FixTree {
  import opened Wrappers
  import opened FixGroups

  const SIZE: nat := 3

  type Values = v: seq<string> | |v| == SIZE witness ["", "", ""]

  type Slot = i: nat | i < SIZE

  datatype Tree = Tree(tag: string, vals: Values, kids: seq<Tree>)

  /** A node with a value in one slot only */
  function NewNode(tag: string, idx: Slot, val: string): Tree {
    Tree(tag, OneValue(idx, val), [])
  }

  function OneValue(idx: Slot, val: string): Values {
    ["", "", ""][idx := val]
  }

  // ---- Looking for nodes among siblings

  function FirstWithTag(kids: seq<Tree>, tag: string): (i: nat)
    ensures i <= |kids| && (i < |kids| ==> kids[i].tag == tag)
    ensures forall j :: 0 <= j < i ==> kids[j].tag != tag
  {
    if kids == [] || kids[0].tag == tag then 0 else 1 + FirstWithTag(kids[1..], tag)
  }

  function CountTag(kids: seq<Tree>, tag: string): (n: nat)
    ensures n <= |kids| - FirstWithTag(kids, tag)
  {
    if kids == [] then 0 else (if kids[0].tag == tag then 1 else 0) + CountTag(kids[1..], tag)
  }

  /** The n-th sibling with the tag, counted from 1 */
  function NthWithTag(kids: seq<Tree>, tag: string, n: nat): (r: Option<nat>)
    ensures r.Some? ==> r.value < |kids| && kids[r.value].tag == tag
  {
    if kids == [] then None
    else if kids[0].tag == tag && n == 1 then Some(0)
    else
      var r := NthWithTag(kids[1..], tag, if kids[0].tag == tag && n > 0 then n - 1 else n);
      if r.None? then None else Some(r.value + 1)
  }

  /** Where a further instance is inserted: behind as many nodes as there are from the first one with
      the tag, or at the end when there is none. */
  function InsertPosition(kids: seq<Tree>, tag: string): (ref: nat)
    ensures ref <= |kids|
  {
    FirstWithTag(kids, tag) + CountTag(kids, tag)
  }

  lemma {:induction false} CountTagSnoc(kids: seq<Tree>, t: Tree, tag: string)
    ensures CountTag(kids + [t], tag) == CountTag(kids, tag) + if t.tag == tag then 1 else 0
  {
    if kids == [] {
      assert kids + [t] == [t];
    } else {
      CountTagSnoc(kids[1..], t, tag);
      assert (kids + [t])[1..] == kids[1..] + [t];
    }
  }

  lemma {:induction false} NthIsCount(kids: seq<Tree>, tag: string, d: nat)
    requires d < |kids| && kids[d].tag == tag
    ensures NthWithTag(kids, tag, CountTag(kids[..d], tag) + 1) == Some(d)
  {
    hide CountTag, NthWithTag;
    if d == 0 {
      FirstIsNth(kids, tag);
    } else {
      NthIsCount(kids[1..], tag, d - 1);
      assert kids[..d][1..] == kids[1..][..d - 1];
      CountTagFirst(kids[..d], tag);
      NthStep(kids, tag, CountTag(kids[..d], tag) + 1);
    }
  }

  lemma {:induction false} FirstIsNth(kids: seq<Tree>, tag: string)
    requires kids != [] && kids[0].tag == tag
    ensures CountTag(kids[..0], tag) == 0 && NthWithTag(kids, tag, 1) == Some(0)
  {
  }

  lemma {:induction false} CountTagFirst(kids: seq<Tree>, tag: string)
    requires kids != []
    ensures CountTag(kids, tag) == (if kids[0].tag == tag then 1 else 0) + CountTag(kids[1..], tag)
  {
  }

  lemma {:induction false} NthStep(kids: seq<Tree>, tag: string, n: nat)
    requires kids != [] && n > 0 && (kids[0].tag == tag ==> n > 1)
    ensures var r := NthWithTag(kids[1..], tag, if kids[0].tag == tag then n - 1 else n);
            NthWithTag(kids, tag, n) == if r.None? then None else Some(r.value + 1)
  {
  }

  lemma {:induction false} NthIsNone(kids: seq<Tree>, tag: string, n: nat)
    requires CountTag(kids, tag) < n
    ensures NthWithTag(kids, tag, n) == None
  {
    if kids != [] {
      NthIsNone(kids[1..], tag, if kids[0].tag == tag then n - 1 else n);
    }
  }

  /** The running insert position of the search for an instance, after `i` siblings */
  function RefAfter(kids: seq<Tree>, tag: string, i: nat): nat
    requires i <= |kids|
  {
    var count := CountTag(kids[..i], tag);
    if count == 0 then i else FirstWithTag(kids, tag) + count
  }

  lemma {:induction false} CountTagZero(kids: seq<Tree>, tag: string)
    ensures CountTag(kids, tag) == 0 <==> forall j :: 0 <= j < |kids| ==> kids[j].tag != tag
  {
    if kids != [] {
      CountTagZero(kids[1..], tag);
      assert forall j :: 0 <= j < |kids[1..]| ==> kids[1..][j] == kids[j + 1];
    }
  }

  lemma {:induction false} RefStep(kids: seq<Tree>, tag: string, i: nat)
    requires i < |kids|
    ensures CountTag(kids[..i + 1], tag) == CountTag(kids[..i], tag) + if kids[i].tag == tag then 1 else 0
    ensures RefAfter(kids, tag, i + 1) ==
            RefAfter(kids, tag, i) + if kids[i].tag != tag && CountTag(kids[..i], tag) > 0 then 0 else 1
  {
    hide CountTag, FirstWithTag;
    CountTagSnoc(kids[..i], kids[i], tag);
    assert kids[..i + 1] == kids[..i] + [kids[i]];
    CountTagZero(kids[..i], tag);
    if CountTag(kids[..i], tag) == 0 {
      assert forall j :: 0 <= j < i ==> kids[..i][j] == kids[j];
    }
  }

  lemma {:induction false} RefEnd(kids: seq<Tree>, tag: string)
    ensures RefAfter(kids, tag, 0) == 0 && CountTag(kids[..0], tag) == 0
    ensures RefAfter(kids, tag, |kids|) == InsertPosition(kids, tag)
    ensures kids[..|kids|] == kids
  {
    assert kids[..|kids|] == kids;
    CountTagZero(kids, tag);
  }

  // ---- One item

  function SetLeaf(kids: seq<Tree>, tok: Token<string>, idx: Slot): seq<Tree> {
    var i := FirstWithTag(kids, tok.tag);
    if idx == 0 || i == |kids| then kids + [NewNode(tok.tag, idx, tok.val)]
    else kids[i := kids[i].(vals := kids[i].vals[idx := tok.val])]
  }

  datatype Placed = Placed(kids: seq<Tree>, at: nat)

  /** Find or create the node of the n-th instance of a counter. */
  function Place(kids: seq<Tree>, tok: Token<string>, idx: Slot, n: nat): (r: Placed)
    ensures r.at < |r.kids|
  {
    var node := NewNode(tok.tag, idx, tok.val);
    if idx == 0 then Placed(kids + [node], |kids|)
    else
      match NthWithTag(kids, tok.tag, n)
      case Some(i) => Placed(kids, i)
      case None =>
        var ref := InsertPosition(kids, tok.tag);
        Placed(kids[..ref] + [node] + kids[ref..], ref)
  }

  type Counts = map<string, nat>

  function CountOf(counts: Counts, tag: string): nat {
    if tag in counts then counts[tag] else 0
  }

  function Counted(counts: Counts, item: Item<string>): Counts {
    if item.Leaf? then counts else counts[item.tok.tag := CountOf(counts, item.tok.tag) + 1]
  }

  /** Read a list of items into slot `idx` of a list of siblings. `counts` are the instances of every
      counter met so far at this level. */
  function Merge(kids: seq<Tree>, items: seq<Item<string>>, counts: Counts, idx: Slot): seq<Tree>
    decreases items
  {
    if items == [] then kids
    else Merge(MergeItem(kids, items[0], counts, idx), items[1..], Counted(counts, items[0]), idx)
  }

  function MergeItem(kids: seq<Tree>, item: Item<string>, counts: Counts, idx: Slot): seq<Tree>
    decreases item
  {
    match item
    case Leaf(tok) => SetLeaf(kids, tok, idx)
    case Inst(tok, body) =>
      var p := Place(kids, tok, idx, CountOf(counts, tok.tag) + 1);
      p.kids[p.at := p.kids[p.at].(kids := Merge(p.kids[p.at].kids, body, map[], idx))]
  }

  lemma {:induction false} MergeCons(kids: seq<Tree>, item: Item<string>, rest: seq<Item<string>>, counts: Counts,
          idx: Slot)
    ensures Merge(kids, [item] + rest, counts, idx) == Merge(MergeItem(kids, item, counts, idx), rest, Counted(counts,
        item), idx)
  {
    assert ([item] + rest)[1..] == rest;
  }

  // ---- Building: slot 0

  /** The tree of the items by themselves, with the values in slot 0 */
  function Rendered(items: seq<Item<string>>): seq<Tree> {
    if items == [] then [] else [RenderedItem(items[0])] + Rendered(items[1..])
  }

  function RenderedItem(item: Item<string>): Tree {
    match item
    case Leaf(tok) => NewNode(tok.tag, 0, tok.val)
    case Inst(tok, body) => NewNode(tok.tag, 0, tok.val).(kids := Rendered(body))
  }

  /** Reading into slot 0 appends the tree of the items, whatever is there. */
  lemma {:induction false} BuildAppends(kids: seq<Tree>, items: seq<Item<string>>, counts: Counts)
    ensures Merge(kids, items, counts, 0) == kids + Rendered(items)
    decreases items
  {
    if items != [] {
      BuildAppendsItem(kids, items[0], counts);
      BuildAppends(kids + [RenderedItem(items[0])], items[1..], Counted(counts, items[0]));
      assert kids + Rendered(items) == (kids + [RenderedItem(items[0])]) + Rendered(items[1..]);
    }
  }

  lemma {:induction false} BuildAppendsItem(kids: seq<Tree>, item: Item<string>, counts: Counts)
    ensures MergeItem(kids, item, counts, 0) == kids + [RenderedItem(item)]
    decreases item
  {
    if item.Inst? {
      BuildAppends([], item.body, map[]);
      assert Merge([], item.body, map[], 0) == Rendered(item.body);
    }
  }

  /** The nodes that are not counters, in preorder, with their values in slot 0 */
  function TreeLeaves(trees: seq<Tree>, counters: set<string>): seq<Token<string>> {
    if trees == [] then [] else LeavesBelow(trees[0], counters) + TreeLeaves(trees[1..], counters)
  }

  function LeavesBelow(t: Tree, counters: set<string>): seq<Token<string>> {
    (if t.tag in counters then [] else [Token(t.tag, t.vals[0])]) + TreeLeaves(t.kids, counters)
  }

  lemma {:induction false} RenderedLeaves(items: seq<Item<string>>, counters: set<string>)
    requires Separated(items, counters)
    ensures TreeLeaves(Rendered(items), counters) == Leaves(items)
    decreases items
  {
    if items != [] {
      assert items[0] in items;
      RenderedItemLeaves(items[0], counters);
      assert forall item <- items[1..] :: item in items;
      RenderedLeaves(items[1..], counters);
      var trees := Rendered(items);
      assert trees[0] == RenderedItem(items[0]) && trees[1..] == Rendered(items[1..]);
    }
  }

  lemma {:induction false} RenderedItemLeaves(item: Item<string>, counters: set<string>)
    requires Separated([item], counters)
    ensures LeavesBelow(RenderedItem(item), counters) == LeavesOf(item)
    decreases item
  {
    assert item in [item];
    if item.Inst? {
      RenderedLeaves(item.body, counters);
    }
  }

  /** Below a counter's node are only members of its group; nodes with one tag are a run of instances
      of one inner counter, so leaf tags are distinct. */
  predicate TreeShape(trees: seq<Tree>, groups: Groups<string>) {
    forall t <- trees :: (t.tag in groups ==> KidsShape(t.kids, groups, groups[t.tag])) && TreeShape(t.kids, groups)
  }

  predicate KidsShape(kids: seq<Tree>, groups: Groups<string>, allowed: set<string>) {
    && (forall i :: 0 <= i < |kids| ==> kids[i].tag in allowed)
    && (forall i, j :: 0 <= i < j < |kids| && kids[i].tag == kids[j].tag ==>
          forall l :: i <= l <= j ==> kids[l].tag == kids[i].tag && kids[i].tag in groups)
  }

  lemma {:induction false} RenderedAt(items: seq<Item<string>>, j: nat)
    requires j < |items|
    ensures |Rendered(items)| == |items| && Rendered(items)[j] == RenderedItem(items[j])
  {
    if j > 0 {
      RenderedAt(items[1..], j - 1);
    } else if |items| > 1 {
      RenderedAt(items[1..], 0);
    }
  }

  lemma {:induction false} RenderedIndex(items: seq<Item<string>>)
    ensures |Rendered(items)| == |items|
    ensures forall j :: 0 <= j < |items| ==> Rendered(items)[j] == RenderedItem(items[j])
  {
    if items != [] {
      RenderedAt(items, 0);
    }
    forall j | 0 <= j < |items|
      ensures Rendered(items)[j] == RenderedItem(items[j])
    {
      RenderedAt(items, j);
    }
  }

  lemma {:induction false} RenderedShape(items: seq<Item<string>>, groups: Groups<string>)
    requires Separated(items, groups.Keys) && Shaped(items, groups)
    ensures TreeShape(Rendered(items), groups)
    decreases items
  {
    var trees := Rendered(items);
    RenderedIndex(items);
    forall j | 0 <= j < |items|
      ensures (trees[j].tag in groups ==> KidsShape(trees[j].kids, groups, groups[trees[j].tag]))
          && TreeShape(trees[j].kids, groups)
    {
      assert items[j] in items;
      if items[j].Inst? {
        RenderedShape(items[j].body, groups);
        RenderedKidsShape(items[j].body, groups, groups[items[j].tok.tag]);
      }
    }
  }

  lemma {:induction false} RenderedKidsShape(body: seq<Item<string>>, groups: Groups<string>, allowed: set<string>)
    requires Separated(body, groups.Keys) && InstanceShape(body, allowed)
    ensures KidsShape(Rendered(body), groups, allowed)
  {
    var kids := Rendered(body);
    RenderedIndex(body);
    assert forall i :: 0 <= i < |kids| ==> kids[i].tag == TagOf(body[i]);
    forall i, j | 0 <= i < j < |kids| && kids[i].tag == kids[j].tag
      ensures forall l :: i <= l <= j ==> kids[l].tag == kids[i].tag && kids[i].tag in groups
    {
      assert TagOf(body[i]) == TagOf(body[j]);
      assert body[i] in body && body[i].Inst?;
    }
  }

  /** Node by node, the trees show the items: tag and value of the token, of the counter for an instance,
      with nothing in the other slots, and below an instance its body. */
  predicate Shows(trees: seq<Tree>, items: seq<Item<string>>)
    decreases items
  {
    |trees| == |items| && forall j :: 0 <= j < |items| ==> ShowsItem(trees[j], items[j])
  }

  predicate ShowsItem(t: Tree, item: Item<string>)
    decreases item
  {
    && t.tag == item.tok.tag && t.vals[0] == item.tok.val && (forall i :: 0 < i < SIZE ==> t.vals[i] == "")
    && match item
       case Leaf(_) => t.kids == []
       case Inst(_, body) => Shows(t.kids, body)
  }

  lemma {:induction false} RenderedShows(items: seq<Item<string>>)
    ensures Shows(Rendered(items), items)
    decreases items
  {
    RenderedIndex(items);
    forall j | 0 <= j < |items|
      ensures ShowsItem(Rendered(items)[j], items[j])
    {
      if items[j].Inst? {
        assert items[j] in items;
        RenderedShows(items[j].body);
      }
    }
  }

  /** The tree that rmake builds from a message in slot 0 shows the division of the message. It has exactly
      the tokens that are not counters as its leaves, in order, and the shape that the group table
      prescribes. */
  lemma {:induction false} BuiltTree(toks: seq<Token<string>>, groups: Groups<string>)
    ensures var built := Merge([], Parse(toks, groups, 0, None).items, map[], 0);
            && Shows(built, Parse(toks, groups, 0, None).items)
            && TreeLeaves(built, groups.Keys) == NonCounters(toks, groups, 0, |toks|) && TreeShape(built, groups)
  {
    var items := Parse(toks, groups, 0, None).items;
    ParseShapes(toks, groups, 0, None);
    ParseConserves(toks, groups);
    BuildAppends([], items, map[]);
    assert Merge([], items, map[], 0) == Rendered(items);
    RenderedShows(items);
    RenderedLeaves(items, groups.Keys);
    RenderedShape(items, groups);
  }

  // ---- The frame of a merge

  /** A node that has nothing but slot `k`, at every depth */
  predicate OnlySlot(t: Tree, k: Slot) {
    && (forall i :: 0 <= i < SIZE && i != k ==> t.vals[i] == "")
    && forall kid <- t.kids :: OnlySlot(kid, k)
  }

  /** `b` is `a` with slot `k` changed and nodes added that have only slot `k`. */
  predicate Extends(a: Tree, b: Tree, k: Slot)
    decreases b
  {
    && a.tag == b.tag
    && (forall i :: 0 <= i < SIZE && i != k ==> a.vals[i] == b.vals[i])
    && ExtendsAll(a.kids, b.kids, k)
  }

  /** The same for lists of siblings: the old ones keep their order. */
  predicate ExtendsAll(a: seq<Tree>, b: seq<Tree>, k: Slot)
    decreases b
  {
    if b == [] then a == []
    else
      (a != [] && Extends(a[0], b[0], k) && ExtendsAll(a[1..], b[1..], k))
      || (OnlySlot(b[0], k) && ExtendsAll(a, b[1..], k))
  }

  lemma {:induction false} ExtendsItself(a: seq<Tree>, k: Slot)
    ensures ExtendsAll(a, a, k)
    decreases a
  {
    if a != [] {
      ExtendsItself(a[0].kids, k);
      ExtendsItself(a[1..], k);
    }
  }

  /** Replacing one sibling by an extension of it */
  lemma {:induction false} ExtendsAt(a: seq<Tree>, i: nat, t: Tree, k: Slot)
    requires i < |a| && Extends(a[i], t, k)
    ensures ExtendsAll(a, a[i := t], k)
  {
    if i == 0 {
      ExtendsItself(a[1..], k);
      assert a[0 := t][1..] == a[1..];
    } else {
      ExtendsItself(a[0].kids, k);
      ExtendsAt(a[1..], i - 1, t, k);
      assert a[i := t][1..] == a[1..][i - 1 := t];
    }
  }

  /** Inserting a new sibling anywhere */
  lemma {:induction false} ExtendsByInsert(a: seq<Tree>, i: nat, t: Tree, k: Slot)
    requires i <= |a| && OnlySlot(t, k)
    ensures ExtendsAll(a, a[..i] + [t] + a[i..], k)
  {
    var b := a[..i] + [t] + a[i..];
    if i == 0 {
      ExtendsItself(a, k);
      assert b[1..] == a;
    } else {
      ExtendsItself(a[0].kids, k);
      ExtendsByInsert(a[1..], i - 1, t, k);
      assert b[1..] == a[1..][..i - 1] + [t] + a[1..][i - 1..];
    }
  }

  lemma {:induction false} NewStaysNew(a: Tree, b: Tree, k: Slot)
    requires OnlySlot(a, k) && Extends(a, b, k)
    ensures OnlySlot(b, k)
    decreases b, 1
  {
    NewStayNew(a.kids, b.kids, k);
  }

  lemma {:induction false} NewStayNew(a: seq<Tree>, b: seq<Tree>, k: Slot)
    requires (forall t <- a :: OnlySlot(t, k)) && ExtendsAll(a, b, k)
    ensures forall t <- b :: OnlySlot(t, k)
    decreases b, 0
  {
    if b != [] {
      if a != [] && Extends(a[0], b[0], k) && ExtendsAll(a[1..], b[1..], k) {
        NewStaysNew(a[0], b[0], k);
        NewStayNew(a[1..], b[1..], k);
      } else {
        NewStayNew(a, b[1..], k);
      }
    }
  }

  lemma {:induction false} ExtendsTransitive(a: seq<Tree>, b: seq<Tree>, c: seq<Tree>, k: Slot)
    requires ExtendsAll(a, b, k) && ExtendsAll(b, c, k)
    ensures ExtendsAll(a, c, k)
    decreases c
  {
    if c != [] {
      if b != [] && Extends(b[0], c[0], k) && ExtendsAll(b[1..], c[1..], k) {
        if a != [] && Extends(a[0], b[0], k) && ExtendsAll(a[1..], b[1..], k) {
          ExtendsTransitive(a[0].kids, b[0].kids, c[0].kids, k);
          ExtendsTransitive(a[1..], b[1..], c[1..], k);
        } else {
          NewStaysNew(b[0], c[0], k);
          ExtendsTransitive(a, b[1..], c[1..], k);
        }
      } else {
        ExtendsTransitive(a, b, c[1..], k);
      }
    }
  }

  lemma {:induction false} SetLeafExtends(kids: seq<Tree>, tok: Token<string>, k: Slot)
    requires k > 0
    ensures ExtendsAll(kids, SetLeaf(kids, tok, k), k)
  {
    var i := FirstWithTag(kids, tok.tag);
    if i == |kids| {
      ExtendsByInsert(kids, |kids|, NewNode(tok.tag, k, tok.val), k);
      assert kids[..|kids|] + [NewNode(tok.tag, k, tok.val)] + kids[|kids|..] == SetLeaf(kids, tok, k);
    } else {
      ExtendsItself(kids[i].kids, k);
      ExtendsAt(kids, i, kids[i].(vals := kids[i].vals[k := tok.val]), k);
    }
  }

  lemma {:induction false} PlaceExtends(kids: seq<Tree>, tok: Token<string>, k: Slot, n: nat)
    requires k > 0
    ensures ExtendsAll(kids, Place(kids, tok, k, n).kids, k)
  {
    ExtendsItself(kids, k);
    ExtendsByInsert(kids, InsertPosition(kids, tok.tag), NewNode(tok.tag, k, tok.val), k);
  }

  lemma {:induction false} MergeKidExtends(kids: seq<Tree>, i: nat, merged: seq<Tree>, k: Slot)
    requires i < |kids| && ExtendsAll(kids[i].kids, merged, k)
    ensures ExtendsAll(kids, kids[i := kids[i].(kids := merged)], k)
  {
    ExtendsAt(kids, i, kids[i].(kids := merged), k);
  }

  /** Merging into slot k > 0 changes no other slot of any node, keeps all nodes with their tags and
      order at every level, and gives new nodes only slot k. */
  lemma {:induction false} MergeExtends(kids: seq<Tree>, items: seq<Item<string>>, counts: Counts, k: Slot)
    requires k > 0
    ensures ExtendsAll(kids, Merge(kids, items, counts, k), k)
    decreases items
  {
    if items == [] {
      ExtendsItself(kids, k);
    } else {
      var next := MergeItem(kids, items[0], counts, k);
      MergeItemExtends(kids, items[0], counts, k);
      MergeExtends(next, items[1..], Counted(counts, items[0]), k);
      ExtendsTransitive(kids, next, Merge(kids, items, counts, k), k);
    }
  }

  lemma {:induction false} MergeItemExtends(kids: seq<Tree>, item: Item<string>, counts: Counts, k: Slot)
    requires k > 0
    ensures ExtendsAll(kids, MergeItem(kids, item, counts, k), k)
    decreases item
  {
    hide ExtendsAll, Place, Merge;
    match item {
      case Leaf(tok) =>
        SetLeafExtends(kids, tok, k);
      case Inst(tok, body) =>
        var n := CountOf(counts, tok.tag) + 1;
        var p := Place(kids, tok, k, n);
        var kid := p.kids[p.at];
        PlaceExtends(kids, tok, k, n);
        MergeExtends(kid.kids, body, map[], k);
        MergeKidExtends(p.kids, p.at, Merge(kid.kids, body, map[], k), k);
        ExtendsTransitive(kids, p.kids, MergeItem(kids, item, counts, k), k);
    }
  }
}
