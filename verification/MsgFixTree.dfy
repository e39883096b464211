/** class MsgFix: the tree of a single message, built by MsgFix_rmake on the same division of the tokens
    as rmake; leaves and groups are told apart by a flag. */
module MsgFixTree {
  import opened Wrappers
  import opened FixGroups

  datatype Node = Node(isTag: bool, tag: int, val: string, kids: seq<Node>)

  function Rendered(items: seq<Item<int>>): seq<Node>
    decreases items
  {
    seq(|items|, j requires 0 <= j < |items| => RenderedItem(items[j]))
  }

  function RenderedItem(item: Item<int>): Node
    decreases item
  {
    match item
    case Leaf(tok) => Node(true, tok.tag, tok.val, [])
    case Inst(tok, body) => Node(false, tok.tag, tok.val, Rendered(body))
  }

  lemma {:induction false} RenderedCons(kids: seq<Node>, item: Item<int>, rest: seq<Item<int>>)
    ensures kids + Rendered([item] + rest) == (kids + [RenderedItem(item)]) + Rendered(rest)
  {
    assert ([item] + rest)[1..] == rest;
  }

  // ---- The tree as a message

  /** The nodes with the flag, in preorder */
  function TagLeaves(nodes: seq<Node>): seq<Token<int>> {
    if nodes == [] then [] else LeavesBelow(nodes[0]) + TagLeaves(nodes[1..])
  }

  function LeavesBelow(n: Node): seq<Token<int>> {
    (if n.isTag then [Token(n.tag, n.val)] else []) + TagLeaves(n.kids)
  }

  /** What one group instance may hold: members of the group, and nodes with one tag only as a run of
      instances of one inner counter, so that leaf tags are distinct. */
  predicate InstanceRuns(kids: seq<Node>, allowed: set<int>) {
    && (forall i :: 0 <= i < |kids| ==> kids[i].tag in allowed)
    && (forall i, j :: 0 <= i < j < |kids| && kids[i].tag == kids[j].tag ==>
          forall l :: i <= l <= j ==> kids[l].tag == kids[i].tag && !kids[l].isTag)
  }

  /** The flag tells counters from other tags, flagged nodes have nothing below them, and below every other
      node is an instance of its group. */
  predicate FlagsRight(nodes: seq<Node>, groups: Groups<int>) {
    forall n <- nodes ::
      (n.isTag <==> n.tag !in groups) && (n.isTag ==> n.kids == [])
      && (!n.isTag ==> n.tag in groups && InstanceRuns(n.kids, groups[n.tag]))
      && FlagsRight(n.kids, groups)
  }

  lemma {:induction false} RenderedLeaves(items: seq<Item<int>>)
    ensures TagLeaves(Rendered(items)) == Leaves(items)
    decreases items
  {
    if items != [] {
      RenderedItemLeaves(items[0]);
      RenderedLeaves(items[1..]);
      var nodes := Rendered(items);
      assert nodes[0] == RenderedItem(items[0]) && nodes[1..] == Rendered(items[1..]);
    }
  }

  lemma {:induction false} RenderedItemLeaves(item: Item<int>)
    ensures LeavesBelow(RenderedItem(item)) == LeavesOf(item)
    decreases item
  {
    if item.Inst? {
      RenderedLeaves(item.body);
    }
  }

  lemma {:induction false} RenderedFrom(items: seq<Item<int>>, n: Node) returns (item: Item<int>)
    requires n in Rendered(items)
    ensures item in items && n == RenderedItem(item)
  {
    var i :| 0 <= i < |items| && Rendered(items)[i] == n;
    item := items[i];
  }

  lemma {:induction false} RenderedFlags(items: seq<Item<int>>, groups: Groups<int>)
    requires Separated(items, groups.Keys) && Shaped(items, groups)
    ensures FlagsRight(Rendered(items), groups)
    decreases items
  {
    forall n | n in Rendered(items)
      ensures (n.isTag <==> n.tag !in groups) && (n.isTag ==> n.kids == [])
      ensures !n.isTag ==> n.tag in groups && InstanceRuns(n.kids, groups[n.tag])
      ensures FlagsRight(n.kids, groups)
    {
      hide InstanceRuns, InstanceShape;
      var item := RenderedFrom(items, n);
      if item.Inst? {
        RenderedFlags(item.body, groups);
        RenderedRuns(item.body, groups[n.tag]);
      }
    }
  }

  lemma {:induction false} RenderedRuns(body: seq<Item<int>>, allowed: set<int>)
    requires InstanceShape(body, allowed)
    ensures InstanceRuns(Rendered(body), allowed)
  {
    var kids := Rendered(body);
    assert forall i :: 0 <= i < |body| ==> kids[i] == RenderedItem(body[i]);
    forall i, j | 0 <= i < j < |kids| && kids[i].tag == kids[j].tag
      ensures forall l :: i <= l <= j ==> kids[l].tag == kids[i].tag && !kids[l].isTag
    {
      assert TagOf(body[i]) == TagOf(body[j]);
    }
  }

  /** Node by node, the tree shows the items: tag and value of the token, of the counter for an instance. */
  predicate Shows(nodes: seq<Node>, items: seq<Item<int>>)
    decreases items
  {
    |nodes| == |items| && forall j :: 0 <= j < |items| ==> ShowsItem(nodes[j], items[j])
  }

  predicate ShowsItem(n: Node, item: Item<int>)
    decreases item
  {
    && n.tag == item.tok.tag && n.val == item.tok.val
    && match item
       case Leaf(_) => n.isTag && n.kids == []
       case Inst(_, body) => !n.isTag && Shows(n.kids, body)
  }

  lemma {:induction false} RenderedShows(items: seq<Item<int>>)
    ensures Shows(Rendered(items), items)
    decreases items
  {
    forall j | 0 <= j < |items|
      ensures ShowsItem(Rendered(items)[j], items[j])
    {
      if items[j].Inst? {
        assert items[j] in items;
        RenderedShows(items[j].body);
      }
    }
  }

  /** The tree of a message shows its division: its flagged nodes are the tokens that are not counters, in order, each
      once; every other node is a counter's, with an instance of its group below it: members only, leaf tags
      distinct, inner instances in runs. */
  lemma {:induction false} BuiltTree(toks: seq<Token<int>>, groups: Groups<int>)
    ensures var nodes := Rendered(Parse(toks, groups, 0, None).items);
            && Shows(nodes, Parse(toks, groups, 0, None).items)
            && TagLeaves(nodes) == NonCounters(toks, groups, 0, |toks|) && FlagsRight(nodes, groups)
  {
    var items := Parse(toks, groups, 0, None).items;
    ParseShapes(toks, groups, 0, None);
    ParseConserves(toks, groups);
    RenderedShows(items);
    RenderedLeaves(items);
    RenderedFlags(items, groups);
  }

  // ---- The objects

  class MsgFix {
    var isTag: bool
    var intTag: int
    var val: string
    var kids: seq<MsgFix>
    ghost var node: Node
    ghost var Repr: set<object>

    ghost predicate Valid()
      reads this, Repr
      ensures Valid() ==> this in Repr
      decreases Repr
    {
      && this in Repr
      && node.isTag == isTag && node.tag == intTag && node.val == val && |node.kids| == |kids|
      && (forall i :: 0 <= i < |kids| ==>
            && kids[i] in Repr && kids[i].Repr <= Repr && this !in kids[i].Repr
            && kids[i].Valid() && kids[i].node == node.kids[i])
      && (forall i, j :: 0 <= i < j < |kids| ==> kids[i].Repr !! kids[j].Repr)
    }

    constructor (intTag: int, val: string, isTag: bool)
      ensures Valid() && fresh(Repr) && node == Node(isTag, intTag, val, []) && kids == []
    {
      this.isTag, this.intTag, this.val, kids := isTag, intTag, val, [];
      node, Repr := Node(isTag, intTag, val, []), {this};
    }

    /** Valid, but for what has changed below one of the children */
    ghost predicate ValidBesides(at: nat)
      reads this, Repr, kids, set kid <- kids, o <- kid.Repr :: o
      requires at < |kids|
    {
      && this in Repr && this !in kids[at].Repr && kids[at].Valid()
      && node.isTag == isTag && node.tag == intTag && node.val == val && |node.kids| == |kids|
      && (forall i :: 0 <= i < |kids| && i != at ==>
            && kids[i] in Repr && kids[i].Repr <= Repr && this !in kids[i].Repr
            && kids[i].Valid() && kids[i].node == node.kids[i] && kids[i].Repr !! kids[at].Repr)
      && (forall i, j :: 0 <= i < j < |kids| && i != at && j != at ==> kids[i].Repr !! kids[j].Repr)
    }

    ghost method KidChanged(at: nat)
      requires at < |kids| && ValidBesides(at)
      modifies this`node, this`Repr
      ensures Valid() && Repr == old(Repr) + kids[at].Repr
      ensures node == old(node).(kids := old(node).kids[at := kids[at].node])
    {
      node := node.(kids := node.kids[at := kids[at].node]);
      Repr := Repr + kids[at].Repr;
    }

    method PushBack(p: MsgFix)
      requires Valid() && p.Valid() && p.Repr !! Repr
      modifies this
      ensures Valid() && Repr == old(Repr) + p.Repr && kids == old(kids) + [p]
      ensures node == old(node).(kids := old(node).kids + [p.node])
    {
      kids := kids + [p];
      node := node.(kids := node.kids + [p.node]);
      Repr := Repr + p.Repr;
    }
  }

  method MsgFixRmake(rMsgFix: MsgFix, toks: seq<Token<int>>, groups: Groups<int>, inc0: nat,
          active0: Option<set<int>>)
    returns (inc: nat)
    requires rMsgFix.Valid() && inc0 <= |toks| && EndsInLeaf(toks, groups)
    modifies rMsgFix.Repr
    ensures rMsgFix.Valid() && fresh(rMsgFix.Repr - old(rMsgFix.Repr))
    ensures inc == Parse(toks, groups, inc0, active0).next
    ensures rMsgFix.node == old(rMsgFix.node).(kids := old(rMsgFix.node).kids + Rendered(Parse(toks, groups, inc0,
        active0).items))
    decreases |toks| - inc0, 0
  {
    hide Rendered, RenderedItem, Parse, ParseInstances, Pending, EndsInLeaf, MsgFix.Valid;
    ghost var goal := rMsgFix.node.kids + Rendered(Parse(toks, groups, inc0, active0).items);
    inc := inc0;
    var active := active0;
    while inc < |toks|
      invariant inc0 <= inc <= |toks|
      invariant rMsgFix.Valid() && fresh(rMsgFix.Repr - old(rMsgFix.Repr))
      invariant rMsgFix.node == old(rMsgFix.node).(kids := rMsgFix.node.kids)
      invariant Parse(toks, groups, inc, active).next == Parse(toks, groups, inc0, active0).next
      invariant rMsgFix.node.kids + Rendered(Parse(toks, groups, inc, active).items) == goal
      decreases |toks| - inc
    {
      var pair := toks[inc];
      if active.Some? {
        if pair.tag !in active.value {
          NothingLeft(toks, groups, inc, active);
          return;
        }
      }
      ParseStep(toks, groups, inc, active);
      if active.Some? {
        active := Some(active.value - {pair.tag});
      }
      if pair.tag in groups {
        CounterIsNotLast(toks, groups, inc);
        var npair := toks[inc + 1];
        if npair.tag !in groups[pair.tag] {
          inc := inc + 1;
        } else {
          inc := MakeGroup(rMsgFix, toks, groups, pair, inc + 1, active);
        }
      } else {
        RenderedLeaf(pair);
        RenderedCons(rMsgFix.node.kids, Leaf(pair), Parse(toks, groups, inc + 1, active).items);
        var p := new MsgFix(pair.tag, pair.val, true);
        rMsgFix.PushBack(p);
        inc := inc + 1;
      }
    }
    NothingLeft(toks, groups, inc, active);
  }

  lemma {:induction false} NothingLeft(toks: seq<Token<int>>, groups: Groups<int>, inc: nat, active: Option<set<int>>)
    requires inc <= |toks| && (inc < |toks| ==> !Accepts(active, toks[inc].tag))
    ensures Parse(toks, groups, inc, active) == Parsed([], inc) && Rendered([]) == []
  {
  }

  lemma {:induction false} KidsPushed(n: MsgFix)
    requires n.Valid()
    ensures |n.node.kids| == |n.kids|
  {
  }

  lemma {:induction false} RenderedLeaf(tok: Token<int>)
    ensures RenderedItem(Leaf(tok)) == Node(true, tok.tag, tok.val, [])
  {
  }

  lemma {:induction false} RenderedInst(counter: Token<int>, body: seq<Item<int>>)
    ensures RenderedItem(Inst(counter, body)) == Node(false, counter.tag, counter.val, Rendered(body))
  {
  }

  /** The inner loop: one node for every instance of the group */
  method MakeGroup(rMsgFix: MsgFix, toks: seq<Token<int>>, groups: Groups<int>, counter: Token<int>, pos0: nat,
          ghost left: Option<set<int>>)
    returns (inc: nat)
    requires rMsgFix.Valid() && EndsInLeaf(toks, groups)
    requires StartsMember(toks, groups, counter.tag, pos0)
    modifies rMsgFix.Repr
    ensures rMsgFix.Valid() && fresh(rMsgFix.Repr - old(rMsgFix.Repr))
    ensures rMsgFix.node == old(rMsgFix.node).(kids := rMsgFix.node.kids)
    ensures pos0 <= inc <= |toks|
    ensures Parse(toks, groups, inc, left).next == Pending(toks, groups, counter, pos0, left).next
    ensures rMsgFix.node.kids + Rendered(Parse(toks, groups, inc, left).items) ==
            old(rMsgFix.node).kids + Rendered(Pending(toks, groups, counter, pos0, left).items)
    decreases |toks| - pos0, 3
  {
    hide Rendered, RenderedItem, Parse, ParseInstances, Pending, MsgFix.Valid;
    ghost var goal := rMsgFix.node.kids + Rendered(Pending(toks, groups, counter, pos0, left).items);
    var members := groups[counter.tag];
    var pos := pos0;
    var npair := toks[pos];
    inc := pos0;
    while pos < |toks| && npair.tag in members
      invariant pos0 <= pos == inc <= |toks| && (pos < |toks| ==> npair == toks[pos])
      invariant rMsgFix.Valid() && fresh(rMsgFix.Repr - old(rMsgFix.Repr))
      invariant rMsgFix.node == old(rMsgFix.node).(kids := rMsgFix.node.kids)
      invariant Pending(toks, groups, counter, pos, left).next == Pending(toks, groups, counter, pos0, left).next
      invariant rMsgFix.node.kids + Rendered(Pending(toks, groups, counter, pos, left).items) == goal
      decreases |toks| - pos
    {
      PendingStep(toks, groups, counter, pos, left);
      ghost var body := Parse(toks, groups, pos, Some(members));
      RenderedCons(rMsgFix.node.kids, Inst(counter, body.items), Pending(toks, groups, counter, body.next, left).items);
      var p := new MsgFix(counter.tag, counter.val, false);
      rMsgFix.PushBack(p);
      KidsPushed(rMsgFix);
      ghost var nodes := rMsgFix.node.kids;
      inc := MakeKid(rMsgFix, |rMsgFix.kids| - 1, p, toks, groups, pos, Some(members));
      assert [] + Rendered(body.items) == Rendered(body.items);
      RenderedInst(counter, body.items);
      pos := inc;
      if pos < |toks| {
        npair := toks[pos];
      }
    }
    PendingStep(toks, groups, counter, pos, left);
  }

  /** The recursive call on one of the nodes: the others stay as they are. */
  method MakeKid(rMsgFix: MsgFix, ghost at: nat, p: MsgFix, toks: seq<Token<int>>, groups: Groups<int>, pos: nat,
          active: Option<set<int>>)
    returns (inc: nat)
    requires rMsgFix.Valid() && EndsInLeaf(toks, groups) && pos <= |toks|
    requires at < |rMsgFix.kids| && p == rMsgFix.kids[at] && at < |rMsgFix.node.kids|
    modifies rMsgFix.Repr
    ensures rMsgFix.Valid() && fresh(rMsgFix.Repr - old(rMsgFix.Repr))
    ensures inc == Parse(toks, groups, pos, active).next
    ensures var kid := old(rMsgFix.node).kids[at];
            rMsgFix.node == old(rMsgFix.node).(kids := old(rMsgFix.node).kids[at :=
              kid.(kids := kid.kids + Rendered(Parse(toks, groups, pos, active).items))])
    decreases |toks| - pos, 1
  {
    hide Rendered, Parse;
    ghost var kids := rMsgFix.kids;
    assert forall j :: 0 <= j < |kids| && j != at ==> kids[j].Repr !! p.Repr;
    inc := MsgFixRmake(p, toks, groups, pos, active);
    assert forall j :: 0 <= j < |kids| && j != at ==> kids[j].Valid();
    rMsgFix.KidChanged(at);
  }
}
