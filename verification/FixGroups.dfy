/** Repeating groups of a FIX message: how the recursive descents of rmake and MsgFix_rmake divide a
    token list. The division depends on the tokens and the group table alone. */
module FixGroups {
  import opened Wrappers

  datatype Token<T> = Token(tag: T, val: string)

  /** For every group counter, the tags that may occur in one instance of the group */
  type Groups<T(==)> = map<T, set<T>>

  /** A token that becomes a leaf, or one instance of a group under its counter */
  datatype Item<T> = Leaf(tok: Token<T>) | Inst(tok: Token<T>, body: seq<Item<T>>)

  datatype Parsed<T> = Parsed(items: seq<Item<T>>, next: nat)

  /** The next token is read behind every counter, so a message must not end with one. */
  predicate EndsInLeaf<T(==)>(toks: seq<Token<T>>, groups: Groups<T>) {
    toks != [] ==> toks[|toks| - 1].tag !in groups
  }

  lemma {:induction false} CounterIsNotLast<T>(toks: seq<Token<T>>, groups: Groups<T>, pos: nat)
    requires EndsInLeaf(toks, groups) && pos < |toks| && toks[pos].tag in groups
    ensures pos + 1 < |toks|
  {
  }

  predicate StartsMember<T(==)>(toks: seq<Token<T>>, groups: Groups<T>, counter: T, pos: nat) {
    counter in groups && pos < |toks| && toks[pos].tag in groups[counter]
  }

  predicate Accepts<T(==)>(active: Option<set<T>>, tag: T) {
    active.None? || tag in active.value
  }

  function Without<T(==)>(active: Option<set<T>>, tag: T): Option<set<T>> {
    if active.None? then None else Some(active.value - {tag})
  }

  /** One activation of the recursive function, from token `inc` on. `active` are the tags that the
      current group instance may still take; the outermost activation takes every token. A counter
      that is not followed by a member of its group leaves no item. */
  function Parse<T(==)>(toks: seq<Token<T>>, groups: Groups<T>, inc: nat, active: Option<set<T>>): (r: Parsed<T>)
    requires inc <= |toks|
    ensures inc <= r.next <= |toks|
    ensures inc < |toks| && Accepts(active, toks[inc].tag) ==> inc < r.next
    decreases |toks| - inc, 0
  {
    if inc == |toks| || !Accepts(active, toks[inc].tag) then Parsed([], inc)
    else
      var tok := toks[inc];
      var left := Without(active, tok.tag);
      if StartsMember(toks, groups, tok.tag, inc + 1) then
        var insts := ParseInstances(toks, groups, tok, inc + 1);
        var rest := Parse(toks, groups, insts.next, left);
        Parsed(insts.items + rest.items, rest.next)
      else
        var rest := Parse(toks, groups, inc + 1, left);
        Parsed((if tok.tag in groups then [] else [Leaf(tok)]) + rest.items, rest.next)
  }

  /** The instances of the group of `counter` that begin at `pos` */
  function ParseInstances<T(==)>(toks: seq<Token<T>>, groups: Groups<T>, counter: Token<T>, pos: nat): (r: Parsed<T>)
    requires pos <= |toks|
    ensures pos <= r.next <= |toks|
    decreases |toks| - pos, 1
  {
    if !StartsMember(toks, groups, counter.tag, pos) then Parsed([], pos)
    else
      var body := Parse(toks, groups, pos, Some(groups[counter.tag]));
      var rest := ParseInstances(toks, groups, counter, body.next);
      Parsed([Inst(counter, body.items)] + rest.items, rest.next)
  }

  /** What is still to be read at `pos`, behind a counter: further instances of its group, and then
      the rest of the activation with the tags in `left`. */
  function Pending<T(==)>(toks: seq<Token<T>>, groups: Groups<T>, counter: Token<T>, pos: nat,
          left: Option<set<T>>): Parsed<T>
    requires pos <= |toks|
  {
    var insts := ParseInstances(toks, groups, counter, pos);
    var rest := Parse(toks, groups, insts.next, left);
    Parsed(insts.items + rest.items, rest.next)
  }

  lemma {:induction false} PendingStep<T>(toks: seq<Token<T>>, groups: Groups<T>, counter: Token<T>, pos: nat,
          left: Option<set<T>>)
    requires pos <= |toks|
    ensures if StartsMember(toks, groups, counter.tag, pos) then
              var body := Parse(toks, groups, pos, Some(groups[counter.tag]));
              var rest := Pending(toks, groups, counter, body.next, left);
              Pending(toks, groups, counter, pos, left) == Parsed([Inst(counter, body.items)] + rest.items, rest.next)
            else Pending(toks, groups, counter, pos, left) == Parse(toks, groups, pos, left)
  {
    if StartsMember(toks, groups, counter.tag, pos) {
      var body := Parse(toks, groups, pos, Some(groups[counter.tag]));
      var insts := ParseInstances(toks, groups, counter, body.next);
      var rest := Parse(toks, groups, insts.next, left);
      assert [Inst(counter, body.items)] + (insts.items + rest.items) == ([Inst(counter,
          body.items)] + insts.items) + rest.items;
    } else {
      var rest := Parse(toks, groups, pos, left);
      assert [] + rest.items == rest.items;
    }
  }

  lemma {:induction false} ParseStep<T>(toks: seq<Token<T>>, groups: Groups<T>, inc: nat, active: Option<set<T>>)
    requires inc < |toks| && Accepts(active, toks[inc].tag)
    ensures var tok := toks[inc];
            var left := Without(active, tok.tag);
            Parse(toks, groups, inc, active) ==
            if StartsMember(toks, groups, tok.tag, inc + 1) then Pending(toks, groups, tok, inc + 1, left)
            else
              var rest := Parse(toks, groups, inc + 1, left);
              if tok.tag in groups then rest else Parsed([Leaf(tok)] + rest.items, rest.next)
  {
    var rest := Parse(toks, groups, inc + 1, Without(active, toks[inc].tag));
    assert [] + rest.items == rest.items;
  }

  // ---- Conservation

  /** The leaves of a list of items from left to right */
  function Leaves<T>(items: seq<Item<T>>): seq<Token<T>> {
    if items == [] then [] else LeavesOf(items[0]) + Leaves(items[1..])
  }

  function LeavesOf<T>(item: Item<T>): seq<Token<T>> {
    match item
    case Leaf(tok) => [tok]
    case Inst(_, body) => Leaves(body)
  }

  function NonCounters<T(==)>(toks: seq<Token<T>>, groups: Groups<T>, lo: nat, hi: nat): seq<Token<T>>
    requires lo <= hi <= |toks|
    decreases hi - lo
  {
    if lo == hi then []
    else (if toks[lo].tag in groups then [] else [toks[lo]]) + NonCounters(toks, groups, lo + 1, hi)
  }

  lemma {:induction false} LeavesAppend<T>(a: seq<Item<T>>, b: seq<Item<T>>)
    ensures Leaves(a + b) == Leaves(a) + Leaves(b)
  {
    if a == [] {
      assert a + b == b;
    } else {
      hide LeavesOf;
      LeavesAppend(a[1..], b);
      assert (a + b)[1..] == a[1..] + b && (a + b)[0] == a[0];
      assert Leaves(a + b) == LeavesOf(a[0]) + (Leaves(a[1..]) + Leaves(b));
    }
  }

  lemma {:induction false} NonCountersSplit<T>(toks: seq<Token<T>>, groups: Groups<T>, lo: nat, mid: nat, hi: nat)
    requires lo <= mid <= hi <= |toks|
    ensures NonCounters(toks, groups, lo, hi) == NonCounters(toks, groups, lo, mid) + NonCounters(toks, groups, mid, hi)
    decreases mid - lo
  {
    if lo < mid {
      NonCountersSplit(toks, groups, lo + 1, mid, hi);
    }
  }

  lemma {:induction false} ParseKeepsLeaves<T>(toks: seq<Token<T>>, groups: Groups<T>, inc: nat, active: Option<set<T>>)
    requires inc <= |toks|
    ensures var r := Parse(toks, groups, inc, active); Leaves(r.items) == NonCounters(toks, groups, inc, r.next)
    decreases |toks| - inc, 0
  {
    if inc < |toks| && Accepts(active, toks[inc].tag) {
      var tok := toks[inc];
      var left := Without(active, tok.tag);
      if StartsMember(toks, groups, tok.tag, inc + 1) {
        var insts := ParseInstances(toks, groups, tok, inc + 1);
        var rest := Parse(toks, groups, insts.next, left);
        InstancesKeepLeaves(toks, groups, tok, inc + 1);
        ParseKeepsLeaves(toks, groups, insts.next, left);
        LeavesAppend(insts.items, rest.items);
        NonCountersSplit(toks, groups, inc + 1, insts.next, rest.next);
      } else {
        ParseKeepsLeaves(toks, groups, inc + 1, left);
        var rest := Parse(toks, groups, inc + 1, left);
        LeavesAppend(if tok.tag in groups then [] else [Leaf(tok)], rest.items);
        assert Leaves([Leaf(tok)]) == [tok];
      }
    }
  }

  lemma {:induction false} InstancesKeepLeaves<T>(toks: seq<Token<T>>, groups: Groups<T>, counter: Token<T>, pos: nat)
    requires pos <= |toks|
    ensures var r := ParseInstances(toks, groups, counter, pos); Leaves(r.items) == NonCounters(toks, groups, pos,
        r.next)
    decreases |toks| - pos, 1
  {
    if StartsMember(toks, groups, counter.tag, pos) {
      var body := Parse(toks, groups, pos, Some(groups[counter.tag]));
      var rest := ParseInstances(toks, groups, counter, body.next);
      ParseKeepsLeaves(toks, groups, pos, Some(groups[counter.tag]));
      InstancesKeepLeaves(toks, groups, counter, body.next);
      NonCountersSplit(toks, groups, pos, body.next, rest.next);
      assert ([Inst(counter, body.items)] + rest.items)[1..] == rest.items;
    }
  }

  lemma {:induction false} ParseReachesEnd<T>(toks: seq<Token<T>>, groups: Groups<T>, inc: nat)
    requires inc <= |toks|
    ensures Parse(toks, groups, inc, None).next == |toks|
    decreases |toks| - inc
  {
    if inc < |toks| {
      var tok := toks[inc];
      if StartsMember(toks, groups, tok.tag, inc + 1) {
        ParseReachesEnd(toks, groups, ParseInstances(toks, groups, tok, inc + 1).next);
      } else {
        ParseReachesEnd(toks, groups, inc + 1);
      }
    }
  }

  /** The outermost activation reads the whole message, and its leaves are exactly the tokens that are
      not counters, in order, each once. */
  lemma {:induction false} ParseConserves<T>(toks: seq<Token<T>>, groups: Groups<T>)
    ensures var r := Parse(toks, groups, 0, None);
            r.next == |toks| && Leaves(r.items) == NonCounters(toks, groups, 0, |toks|)
  {
    ParseReachesEnd(toks, groups, 0);
    ParseKeepsLeaves(toks, groups, 0, None);
  }

  // ---- Shape

  function TagOf<T>(item: Item<T>): T {
    item.tok.tag
  }

  /** Leaves carry ordinary tags and instances carry counters, at every depth. */
  predicate Separated<T(==)>(items: seq<Item<T>>, counters: set<T>) {
    forall item <- items ::
      match item
      case Leaf(tok) => tok.tag !in counters
      case Inst(tok, body) => tok.tag in counters && Separated(body, counters)
  }

  /** What one group instance may hold: allowed tags, every leaf tag once, every counter in one run. */
  predicate InstanceShape<T(==)>(items: seq<Item<T>>, allowed: set<T>) {
    && (forall i :: 0 <= i < |items| ==> TagOf(items[i]) in allowed)
    && (forall i, j :: 0 <= i < j < |items| && TagOf(items[i]) == TagOf(items[j]) ==>
          forall k :: i <= k <= j ==> items[k].Inst? && TagOf(items[k]) == TagOf(items[i]))
  }

  predicate Shaped<T(==)>(items: seq<Item<T>>, groups: Groups<T>) {
    forall item <- items ::
      item.Inst? ==> item.tok.tag in groups && InstanceShape(item.body, groups[item.tok.tag]) && Shaped(item.body,
          groups)
  }

  lemma {:induction false} ParseShapes<T>(toks: seq<Token<T>>, groups: Groups<T>, inc: nat, active: Option<set<T>>)
    requires inc <= |toks|
    ensures var r := Parse(toks, groups, inc, active);
            Separated(r.items, groups.Keys) && Shaped(r.items, groups)
            && (active.Some? ==> InstanceShape(r.items, active.value))
    decreases |toks| - inc, 0
  {
    if inc < |toks| && Accepts(active, toks[inc].tag) {
      var tok := toks[inc];
      var left := Without(active, tok.tag);
      var head: seq<Item<T>> := if tok.tag in groups then [] else [Leaf(tok)];
      var next := inc + 1;
      if StartsMember(toks, groups, tok.tag, inc + 1) {
        InstancesShape(toks, groups, tok, inc + 1);
        head, next := ParseInstances(toks, groups, tok, inc + 1).items, ParseInstances(toks, groups, tok, inc + 1).next;
      }
      ParseShapes(toks, groups, next, left);
      if active.Some? {
        RunThenRest(head, Parse(toks, groups, next, left).items, tok.tag, active.value);
      }
    }
  }

  lemma {:induction false} RunThenRest<T>(run: seq<Item<T>>, rest: seq<Item<T>>, tag: T, allowed: set<T>)
    requires tag in allowed && InstanceShape(rest, allowed - {tag})
    requires forall i :: 0 <= i < |run| ==> TagOf(run[i]) == tag && (run[i].Inst? || |run| == 1)
    ensures InstanceShape(run + rest, allowed)
  {
    var all := run + rest;
    forall i, j | 0 <= i < j < |all| && TagOf(all[i]) == TagOf(all[j])
      ensures forall k :: i <= k <= j ==> all[k].Inst? && TagOf(all[k]) == TagOf(all[i])
    {
      if i >= |run| {
        assert all[i] == rest[i - |run|] && all[j] == rest[j - |run|];
        forall k | i <= k <= j
          ensures all[k].Inst? && TagOf(all[k]) == TagOf(all[i])
        {
          assert all[k] == rest[k - |run|];
        }
      } else {
        assert j < |run|;
      }
    }
  }

  lemma {:induction false} InstancesShape<T>(toks: seq<Token<T>>, groups: Groups<T>, counter: Token<T>, pos: nat)
    requires pos <= |toks| && counter.tag in groups
    ensures var r := ParseInstances(toks, groups, counter, pos);
            Separated(r.items, groups.Keys) && Shaped(r.items, groups)
            && forall i :: 0 <= i < |r.items| ==> r.items[i].Inst? && r.items[i].tok == counter
    decreases |toks| - pos, 1
  {
    if StartsMember(toks, groups, counter.tag, pos) {
      var body := Parse(toks, groups, pos, Some(groups[counter.tag]));
      ParseShapes(toks, groups, pos, Some(groups[counter.tag]));
      InstancesShape(toks, groups, counter, body.next);
    }
  }
}
