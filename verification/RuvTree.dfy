/** class ruv: the heap nodes of the message tree, and rmake, which builds the tree in slot 0 and merges
    further messages into the other slots in place. Every node carries its abstract value, a Tree. */
module RuvTree {
  import opened Wrappers
  import opened FixGroups
  import opened FixTree
  import opened FixMergeNodes
  import opened FixMergePlaces
  import opened FixMergeShape
  import opened FixMergeValues

  class Ruv {
    var tag: string
    var vals: Values
    var kids: seq<Ruv>
    ghost var tree: Tree
    ghost var Repr: set<object>

    ghost predicate Valid()
      reads this, Repr
      ensures Valid() ==> this in Repr
      decreases Repr
    {
      && this in Repr
      && tree.tag == tag && tree.vals == vals && |tree.kids| == |kids|
      && (forall i :: 0 <= i < |kids| ==>
            && kids[i] in Repr && kids[i].Repr <= Repr && this !in kids[i].Repr
            && kids[i].Valid() && kids[i].tree == tree.kids[i])
      && (forall i, j :: 0 <= i < j < |kids| ==> kids[i].Repr !! kids[j].Repr)
    }

    constructor Root()
      ensures Valid() && fresh(Repr) && tree == Tree("", ["", "", ""], [])
    {
      tag, vals, kids := "", ["", "", ""], [];
      tree, Repr := Tree("", ["", "", ""], []), {this};
    }

    /** A node with a value in one slot */
    constructor (tag: string, idx: Slot, val: string)
      ensures Valid() && fresh(Repr) && tree == NewNode(tag, idx, val) && kids == []
    {
      this.tag, vals, kids := tag, OneValue(idx, val), [];
      tree, Repr := NewNode(tag, idx, val), {this};
    }

    /** Valid, but for what has changed below one of the children */
    ghost predicate ValidBesides(at: nat)
      reads this, Repr, kids, set kid <- kids, o <- kid.Repr :: o
      requires at < |kids|
    {
      && this in Repr && this !in kids[at].Repr && kids[at].Valid()
      && tree.tag == tag && tree.vals == vals && |tree.kids| == |kids|
      && (forall i :: 0 <= i < |kids| && i != at ==>
            && kids[i] in Repr && kids[i].Repr <= Repr && this !in kids[i].Repr
            && kids[i].Valid() && kids[i].tree == tree.kids[i] && kids[i].Repr !! kids[at].Repr)
      && (forall i, j :: 0 <= i < j < |kids| && i != at && j != at ==> kids[i].Repr !! kids[j].Repr)
    }

    ghost method KidChanged(at: nat)
      requires at < |kids| && ValidBesides(at)
      modifies this`tree, this`Repr
      ensures Valid() && Repr == old(Repr) + kids[at].Repr
      ensures tree == old(tree).(kids := old(tree).kids[at := kids[at].tree])
    {
      tree := tree.(kids := tree.kids[at := kids[at].tree]);
      Repr := Repr + kids[at].Repr;
    }

    method SetVal(idx: Slot, val: string)
      requires Valid()
      modifies this
      ensures Valid() && Repr == old(Repr) && kids == old(kids)
      ensures tree == old(tree).(vals := old(tree).vals[idx := val])
    {
      vals := vals[idx := val];
      tree := tree.(vals := vals);
    }

    /** push_back_ruv */
    method PushBack(p: Ruv)
      requires Valid() && p.Valid() && p.Repr !! Repr
      modifies this
      ensures Valid() && Repr == old(Repr) + p.Repr && kids == old(kids) + [p]
      ensures tree == old(tree).(kids := old(tree).kids + [p.tree])
    {
      kids := kids + [p];
      tree := tree.(kids := tree.kids + [p.tree]);
      Repr := Repr + p.Repr;
    }

    /** insert_ruv */
    method Insert(i: nat, p: Ruv)
      requires Valid() && i <= |kids| && p.Valid() && p.Repr !! Repr
      modifies this
      ensures Valid() && Repr == old(Repr) + p.Repr && kids == old(kids)[..i] + [p] + old(kids)[i..]
      ensures tree == old(tree).(kids := old(tree).kids[..i] + [p.tree] + old(tree).kids[i..])
    {
      ghost var before := kids;
      kids := kids[..i] + [p] + kids[i..];
      tree := tree.(kids := tree.kids[..i] + [p.tree] + tree.kids[i..]);
      Repr := Repr + p.Repr;
      InsertedApart(before, i, p);
    }

    static lemma {:induction false} InsertedApart(before: seq<Ruv>, i: nat, p: Ruv)
      requires i <= |before| && forall x :: 0 <= x < |before| ==> before[x].Repr !! p.Repr
      requires forall x, y :: 0 <= x < y < |before| ==> before[x].Repr !! before[y].Repr
      ensures var after := before[..i] + [p] + before[i..];
              forall x, y :: 0 <= x < y < |after| ==> after[x].Repr !! after[y].Repr
    {
    }

    /** The search for the n-th instance of a counter; `ref` is the insert position if it fails. */
    method FindInstance(counter: string, n: nat) returns (p: Ruv?, ref: nat, ghost at: nat)
      requires Valid() && n > 0
      ensures p != null ==> NthWithTag(tree.kids, counter, n) == Some(at) && at < |kids| && p == kids[at]
      ensures p == null ==> NthWithTag(tree.kids, counter, n) == None && ref == InsertPosition(tree.kids, counter)
    {
      hide NthWithTag, CountTag, FirstWithTag, InsertPosition, RefAfter;
      ref, at := 0, 0;
      var count := 0;
      RefEnd(tree.kids, counter);
      for i := 0 to |kids|
        invariant count == CountTag(tree.kids[..i], counter) < n
        invariant ref == RefAfter(tree.kids, counter, i)
      {
        RefStep(tree.kids, counter, i);
        ref := ref + 1;
        if kids[i].tag == counter {
          count := count + 1;
          if count == n {
            NthIsCount(tree.kids, counter, i);
            return kids[i], ref, i;
          }
        } else if count != 0 {
          ref := ref - 1;
        }
      }
      NthIsNone(tree.kids, counter, n);
      p := null;
    }

    /** A token that is not a counter: set slot idx of the first sibling with its tag, or append. */
    method SetLeaf(tok: Token<string>, idx: Slot)
      requires Valid()
      modifies Repr
      ensures Valid() && fresh(Repr - old(Repr))
      ensures tree == old(tree).(kids := FixTree.SetLeaf(old(tree).kids, tok, idx))
    {
      if idx != 0 {
        var i := 0;
        while i < |kids|
          invariant i <= |kids| && forall j :: 0 <= j < i ==> tree.kids[j].tag != tok.tag
        {
          if kids[i].tag == tok.tag {
            SetKidVal(i, idx, tok.val);
            return;
          }
          i := i + 1;
        }
      }
      var p := new Ruv(tok.tag, idx, tok.val);
      PushBack(p);
    }

    method SetKidVal(i: nat, idx: Slot, val: string)
      requires Valid() && i < |kids|
      modifies Repr
      ensures Valid() && Repr == old(Repr) && kids == old(kids)
      ensures var kid := old(tree).kids[i];
              tree == old(tree).(kids := old(tree).kids[i := kid.(vals := kid.vals[idx := val])])
    {
      kids[i].SetVal(idx, val);
      assert forall j :: 0 <= j < |kids| && j != i ==> kids[j].Valid();
      KidChanged(i);
    }

    /** Find or create the node for the n-th instance of a counter. */
    method PlaceInstance(tok: Token<string>, idx: Slot, n: nat) returns (ghost at: nat, p: Ruv)
      requires Valid() && n > 0
      modifies Repr
      ensures Valid() && fresh(Repr - old(Repr))
      ensures var placed := Place(old(tree).kids, tok, idx, n);
              tree == old(tree).(kids := placed.kids) && at == placed.at
      ensures at < |kids| && p == kids[at]
    {
      hide NthWithTag, InsertPosition;
      if idx == 0 {
        p := new Ruv(tok.tag, idx, tok.val);
        at := |kids|;
        PushBack(p);
      } else {
        var found, ref;
        found, ref, at := FindInstance(tok.tag, n);
        if found == null {
          p := new Ruv(tok.tag, idx, tok.val);
          at := ref;
          Insert(ref, p);
        } else {
          p := found;
        }
      }
    }
  }

  /** The counters in use have the numbers of instances met, or zero. */
  ghost predicate SameCounts(counts: Counts, met: Counts) {
    forall t :: CountOf(counts, t) == CountOf(met, t)
  }

  /** Read the tokens from `inc0` on into slot `idx` below `rT`, in place. The position returned is the
      one that Parse finds, whatever the tree and the slot are. */
  method Rmake(rT: Ruv, toks: seq<Token<string>>, groups: Groups<string>, idx: Slot, inc0: nat,
          active0: Option<set<string>>)
    returns (inc: nat)
    requires rT.Valid() && inc0 <= |toks| && EndsInLeaf(toks, groups)
    modifies rT.Repr
    ensures rT.Valid() && fresh(rT.Repr - old(rT.Repr))
    ensures inc == Parse(toks, groups, inc0, active0).next
    ensures rT.tree == old(rT.tree).(kids := Merge(old(rT.tree).kids, Parse(toks, groups, inc0, active0).items, map[],
        idx))
    decreases |toks| - inc0, 0
  {
    hide Merge, MergeItem, Parse, ParseInstances, Pending, Place, SetLeaf, Counted, SameCounts, EndsInLeaf, Ruv.Valid;
    ghost var goal := Merge(rT.tree.kids, Parse(toks, groups, inc0, active0).items, map[], idx);
    inc := inc0;
    var active := active0;
    var counts: Counts := map[];
    ghost var met: Counts := map[];
    NothingCounted();
    while inc < |toks|
      invariant inc0 <= inc <= |toks|
      invariant rT.Valid() && fresh(rT.Repr - old(rT.Repr)) && rT.tree == old(rT.tree).(kids := rT.tree.kids)
      invariant SameCounts(counts, met)
      invariant Parse(toks, groups, inc, active).next == Parse(toks, groups, inc0, active0).next
      invariant Merge(rT.tree.kids, Parse(toks, groups, inc, active).items, met, idx) == goal
      decreases |toks| - inc
    {
      var tok := toks[inc];
      if active.Some? {
        if tok.tag !in active.value {
          ParseStops(toks, groups, inc, active, rT.tree.kids, met, idx);
          return;
        }
      }
      ParseStep(toks, groups, inc, active);
      if active.Some? {
        active := Some(active.value - {tok.tag});
      }
      if tok.tag in groups {
        if tok.tag !in counts {
          CountFromZero(counts, met, tok.tag);
          counts := counts[tok.tag := 0];
        }
        CounterIsNotLast(toks, groups, inc);
        var npair := toks[inc + 1];
        if npair.tag in groups[tok.tag] {
          inc, counts, met := RmakeGroup(rT, toks, groups, idx, tok, inc + 1, counts, met, active);
        } else {
          inc := inc + 1;
        }
      } else {
        MergeCons(rT.tree.kids, Leaf(tok), Parse(toks, groups, inc + 1, active).items, met, idx);
        MergeLeaf(rT.tree.kids, tok, met, idx);
        rT.SetLeaf(tok, idx);
        inc := inc + 1;
      }
    }
    ParseStops(toks, groups, inc, active, rT.tree.kids, met, idx);
  }

  /** The inner loop, behind a counter that is followed by a member of its group */
  method RmakeGroup(rT: Ruv, toks: seq<Token<string>>, groups: Groups<string>, idx: Slot, counter: Token<string>,
          pos0: nat, counts0: Counts, ghost met0: Counts, ghost left: Option<set<string>>)
    returns (inc: nat, counts: Counts, ghost met: Counts)
    requires rT.Valid() && EndsInLeaf(toks, groups)
    requires StartsMember(toks, groups, counter.tag, pos0)
    requires counter.tag in counts0 && SameCounts(counts0, met0)
    modifies rT.Repr
    ensures rT.Valid() && fresh(rT.Repr - old(rT.Repr)) && rT.tree == old(rT.tree).(kids := rT.tree.kids)
    ensures pos0 <= inc <= |toks| && SameCounts(counts, met)
    ensures Parse(toks, groups, inc, left).next == Pending(toks, groups, counter, pos0, left).next
    ensures Merge(rT.tree.kids, Parse(toks, groups, inc, left).items, met, idx) ==
            Merge(old(rT.tree).kids, Pending(toks, groups, counter, pos0, left).items, met0, idx)
    decreases |toks| - pos0, 3
  {
    hide Merge, MergeItem, Parse, ParseInstances, Pending, Place, SameCounts, Ruv.Valid;
    ghost var goal := Merge(rT.tree.kids, Pending(toks, groups, counter, pos0, left).items, met0, idx);
    var members := groups[counter.tag];
    var pos := pos0;
    var npair := toks[pos];
    inc, counts, met := pos0, counts0, met0;
    while pos < |toks| && npair.tag in members
      invariant pos0 <= pos == inc <= |toks| && (pos < |toks| ==> npair == toks[pos])
      invariant rT.Valid() && fresh(rT.Repr - old(rT.Repr)) && rT.tree == old(rT.tree).(kids := rT.tree.kids)
      invariant counter.tag in counts && SameCounts(counts, met)
      invariant Pending(toks, groups, counter, pos, left).next == Pending(toks, groups, counter, pos0, left).next
      invariant Merge(rT.tree.kids, Pending(toks, groups, counter, pos, left).items, met, idx) == goal
      decreases |toks| - pos
    {
      CountOneMore(counts, met, counter.tag);
      counts := counts[counter.tag := counts[counter.tag] + 1];
      PendingStep(toks, groups, counter, pos, left);
      ghost var item := Inst(counter, Parse(toks, groups, pos, Some(members)).items);
      ghost var rest := Pending(toks, groups, counter, Parse(toks, groups, pos, Some(members)).next, left);
      MergeCons(rT.tree.kids, item, rest.items, met, idx);
      inc := RmakeInstance(rT, toks, groups, idx, counter, counts[counter.tag], pos, met);
      met := Counted(met, item);
      pos := inc;
      if pos < |toks| {
        npair := toks[pos];
      }
    }
    PendingStep(toks, groups, counter, pos, left);
  }

  lemma {:induction false} CountOneMore(counts: Counts, met: Counts, tag: string)
    requires tag in counts && SameCounts(counts, met)
    ensures counts[tag] == CountOf(met, tag)
    ensures SameCounts(counts[tag := counts[tag] + 1], met[tag := CountOf(met, tag) + 1])
  {
    assert CountOf(counts, tag) == CountOf(met, tag);
    var more, metMore := counts[tag := counts[tag] + 1], met[tag := CountOf(met, tag) + 1];
    forall t
      ensures CountOf(more, t) == CountOf(metMore, t)
    {
      assert CountOf(counts, t) == CountOf(met, t);
    }
  }

  lemma {:induction false} NothingCounted()
    ensures SameCounts(map[], map[])
  {
  }

  lemma {:induction false} CountFromZero(counts: Counts, met: Counts, tag: string)
    requires tag !in counts && SameCounts(counts, met)
    ensures SameCounts(counts[tag := 0], met)
  {
    var more := counts[tag := 0];
    forall t
      ensures CountOf(more, t) == CountOf(met, t)
    {
      assert CountOf(counts, t) == CountOf(met, t);
    }
  }

  lemma {:induction false} ParseStops(toks: seq<Token<string>>, groups: Groups<string>, inc: nat,
          active: Option<set<string>>, kids: seq<Tree>, counts: Counts, idx: Slot)
    requires inc <= |toks| && (inc < |toks| ==> !Accepts(active, toks[inc].tag))
    ensures Parse(toks, groups, inc, active) == Parsed([], inc)
    ensures Merge(kids, [], counts, idx) == kids
  {
  }

  lemma {:induction false} MergeLeaf(kids: seq<Tree>, tok: Token<string>, counts: Counts, idx: Slot)
    ensures MergeItem(kids, Leaf(tok), counts, idx) == SetLeaf(kids, tok, idx) && Counted(counts, Leaf(tok)) == counts
  {
  }

  /** One turn of the inner loop: the node of the instance, and the recursive call on it */
  method RmakeInstance(rT: Ruv, toks: seq<Token<string>>, groups: Groups<string>, idx: Slot, counter: Token<string>,
          n: nat, pos: nat, ghost met: Counts)
    returns (inc: nat)
    requires rT.Valid() && EndsInLeaf(toks, groups)
    requires StartsMember(toks, groups, counter.tag, pos) && n == CountOf(met, counter.tag) + 1
    modifies rT.Repr
    ensures rT.Valid() && fresh(rT.Repr - old(rT.Repr))
    ensures inc == Parse(toks, groups, pos, Some(groups[counter.tag])).next
    ensures var item := Inst(counter, Parse(toks, groups, pos, Some(groups[counter.tag])).items);
            rT.tree == old(rT.tree).(kids := MergeItem(old(rT.tree).kids, item, met, idx))
    decreases |toks| - pos, 2
  {
    hide Merge, Parse, Place, Ruv.Valid;
    ghost var at;
    var p;
    at, p := rT.PlaceInstance(counter, idx, n);
    inc := RmakeKid(rT, at, p, toks, groups, idx, pos, Some(groups[counter.tag]));
  }

  /** The recursive call on one of the nodes below `rT`: the others stay as they are. */
  method RmakeKid(rT: Ruv, ghost at: nat, p: Ruv, toks: seq<Token<string>>, groups: Groups<string>, idx: Slot,
          pos: nat, active: Option<set<string>>)
    returns (inc: nat)
    requires rT.Valid() && EndsInLeaf(toks, groups) && pos <= |toks|
    requires at < |rT.kids| && p == rT.kids[at] && at < |rT.tree.kids|
    modifies rT.Repr
    ensures rT.Valid() && fresh(rT.Repr - old(rT.Repr))
    ensures inc == Parse(toks, groups, pos, active).next
    ensures var kid := old(rT.tree).kids[at];
            rT.tree == old(rT.tree).(kids := old(rT.tree).kids[at :=
              kid.(kids := Merge(kid.kids, Parse(toks, groups, pos, active).items, map[], idx))])
    decreases |toks| - pos, 1
  {
    hide Merge, Parse;
    ghost var kids := rT.kids;
    assert forall j :: 0 <= j < |kids| && j != at ==> kids[j].Repr !! p.Repr;
    inc := Rmake(p, toks, groups, idx, pos, active);
    assert forall j :: 0 <= j < |kids| && j != at ==> kids[j].Valid();
    rT.KidChanged(at);
  }

  /** display_fix of two messages: the first is built in slot 0, the second merged into slot 1. Every
      slot holds its own message, the nodes of the first message keep their order, and the tree has the
      shape that the group table prescribes. Every value of the second message is in its place if the
      first one has the nodes of every top-level counter next to each other, or enough of them; and only
      then, unless two top-level instances of the second message have the same values. */
  method BuildAndMerge(first: seq<Token<string>>, second: seq<Token<string>>, groups: Groups<string>)
    returns (root: Ruv)
    requires EndsInLeaf(first, groups) && EndsInLeaf(second, groups)
    ensures fresh(root) && root.Valid() && root.tree.kids == MergeAll([first, second], groups)
    ensures Holds(root.tree.kids, first, groups, 0) && Holds(root.tree.kids, second, groups, 1)
    ensures TreeShape(root.tree.kids, groups)
    ensures var built, items := MergeAll([first], groups), Parse(second, groups, 0, None).items;
            ((forall c <- groups.Keys :: Suffices(built, items, c)) ==> InPlace(root.tree.kids, items, groups.Keys, 1))
            && (DistinctHere(items) && InPlace(root.tree.kids, items, groups.Keys, 1) ==>
                  forall c <- groups.Keys :: Suffices(built, items, c))
    ensures TreeLeaves(MergeAll([first], groups), groups.Keys) == NonCounters(first, groups, 0, |first|)
    ensures ExtendsAll(MergeAll([first], groups), root.tree.kids, 1)
  {
    hide Merge, Parse, ExtendsAll, TreeLeaves, Holds, NonCounters, TreeShape, SlotEmpty, InPlace;
    hide Suffices, DistinctHere;
    root := new Ruv.Root();
    MergeAllStep([], first, groups);
    var end := Rmake(root, first, groups, 0, 0, None);
    assert [] + [first] == [first] && [first] + [second] == [first, second];
    MergeAllStep([first], second, groups);
    MergeExtends(root.tree.kids, Parse(second, groups, 0, None).items, map[], 1);
    BuiltTree(first, groups);
    EveryMessageIsHeld([first, second], groups);
    EveryTreeIsShaped([first, second], groups);
    EveryMessageIsHeld([first], groups);
    EveryTreeIsShaped([first], groups);
    MergePlaces(MergeAll([first], groups), second, groups, 1);
    end := Rmake(root, second, groups, 1, 0, None);
  }
}
