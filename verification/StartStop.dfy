/** ssmake: groups that a start tag opens and its own stop tag ends. */
module StartStop {
  import opened Wrappers
  import opened FixGroups
  import opened FixTree
  import opened FixMergePlaces
  import opened FixMergeValues
  import opened FixReading
  import opened FixSelfMerge
  import opened RuvTree

  /** For every start tag, its stop tag */
  type Stops = map<string, string>

  /** The next token is read behind every start tag, so a message must not end with one. */
  predicate EndsWithoutStart(toks: seq<Token<string>>, stops: Stops) {
    toks != [] ==> toks[|toks| - 1].tag !in stops
  }

  predicate AtStop(toks: seq<Token<string>>, inc: nat, stop: Option<string>) {
    inc < |toks| && stop == Some(toks[inc].tag)
  }

  /** A start tag opens a group unless its own stop tag follows at once. */
  predicate Opens(toks: seq<Token<string>>, stops: Stops, inc: nat) {
    inc + 1 < |toks| && toks[inc].tag in stops && toks[inc + 1].tag != stops[toks[inc].tag]
  }

  /** One activation: up to the stop tag, which is left to the caller, or to the end of the message */
  function ParseStops(toks: seq<Token<string>>, stops: Stops, inc: nat, stop: Option<string>): (r: Parsed<string>)
    requires inc <= |toks|
    ensures inc <= r.next <= |toks| && (r.next == |toks| || AtStop(toks, r.next, stop))
    decreases |toks| - inc
  {
    if inc == |toks| || AtStop(toks, inc, stop) then Parsed([], inc)
    else
      var tok := toks[inc];
      if Opens(toks, stops, inc) then
        var body := ParseStops(toks, stops, inc + 1, Some(stops[tok.tag]));
        var rest := ParseStops(toks, stops, body.next, stop);
        Parsed([Inst(tok, body.items)] + rest.items, rest.next)
      else
        var rest := ParseStops(toks, stops, inc + 1, stop);
        Parsed((if tok.tag in stops then [] else [Leaf(tok)]) + rest.items, rest.next)
  }

  // ---- Where groups end

  /** One group with the stop tag `stop` (or the outermost level, when there is none): no token at its own
      level has the stop tag, and it ends in front of the first one that would, or at the end of the
      message. A start tag is followed by one group, unless its own stop tag follows at once. */
  predicate StopReads(toks: seq<Token<string>>, stops: Stops, stop: Option<string>, a: Span<string>)
    decreases a
  {
    && a.lo <= a.hi <= |toks| && Chained(a.own, a.lo, a.hi)
    && (forall o <- a.own :: stop != Some(o.tok.tag))
    && (a.hi == |toks| || stop == Some(toks[a.hi].tag))
    && (forall o <- a.own :: OwnStops(toks, stops, o))
  }

  predicate OwnStops(toks: seq<Token<string>>, stops: Stops, o: Own<string>)
    decreases o
  {
    && o.pos < |toks| && toks[o.pos] == o.tok
    && if o.tok.tag in stops && o.pos + 1 < |toks| && toks[o.pos + 1].tag != stops[o.tok.tag] then
         |o.insts| == 1 && o.insts[0].lo == o.pos + 1 && StopReads(toks, stops, Some(stops[o.tok.tag]), o.insts[0])
       else o.insts == []
  }

  lemma {:induction false} StopReadsCons(toks: seq<Token<string>>, stops: Stops, stop: Option<string>, o: Own<string>,
          rest: Span<string>)
    requires OwnStops(toks, stops, o) && stop != Some(o.tok.tag) && o.pos < End(o) == rest.lo
    requires StopReads(toks, stops, stop, rest)
    ensures StopReads(toks, stops, stop, Span(o.pos, rest.hi, [o] + rest.own))
  {
    hide OwnStops, End;
    var own := [o] + rest.own;
    assert own[0] == o && own[1..] == rest.own;
    assert forall x :: x in own <==> x == o || x in rest.own;
  }

  lemma {:induction false} StopsRead(toks: seq<Token<string>>, stops: Stops, inc: nat, stop: Option<string>)
    returns (a: Span<string>)
    requires inc <= |toks|
    ensures StopReads(toks, stops, stop, a) && a.lo == inc
    ensures ParseStops(toks, stops, inc, stop) == Parsed(ItemsOf(a.own, stops.Keys), a.hi)
    decreases |toks| - inc
  {
    hide StopReads, ParseStops, ItemsOf, OwnItems;
    if inc == |toks| || AtStop(toks, inc, stop) {
      a := Span(inc, inc, []);
      NothingStops(toks, stops, inc, stop);
    } else {
      var tok := toks[inc];
      var insts: seq<Span<string>> := [];
      if Opens(toks, stops, inc) {
        var body := StopsRead(toks, stops, inc + 1, Some(stops[tok.tag]));
        StopBounds(toks, stops, Some(stops[tok.tag]), body);
        insts := [body];
      }
      var o := Own(tok, inc, insts);
      var rest := StopsRead(toks, stops, End(o), stop);
      StopReadsCons(toks, stops, stop, o, rest);
      a := Span(inc, rest.hi, [o] + rest.own);
      StopsUnfold(toks, stops, inc, stop);
      ItemsCons(o, rest.own, stops.Keys);
      SingleOwnItems(o, stops.Keys);
    }
  }

  lemma {:induction false} StopBounds(toks: seq<Token<string>>, stops: Stops, stop: Option<string>, a: Span<string>)
    requires StopReads(toks, stops, stop, a)
    ensures a.lo <= a.hi <= |toks|
  {
  }

  lemma {:induction false} NothingStops(toks: seq<Token<string>>, stops: Stops, inc: nat, stop: Option<string>)
    requires inc <= |toks| && (inc == |toks| || stop == Some(toks[inc].tag))
    ensures StopReads(toks, stops, stop, Span(inc, inc, []))
    ensures ParseStops(toks, stops, inc, stop) == Parsed(ItemsOf<string>([], stops.Keys), inc)
  {
  }

  lemma {:induction false} SingleOwnItems(o: Own<string>, counters: set<string>)
    ensures |o.insts| <= 1 ==>
              OwnItems(o, counters) ==
              if o.insts == [] then (if o.tok.tag in counters then [] else [Leaf(o.tok)])
              else [Inst(o.tok, ItemsOf(o.insts[0].own, counters))]
  {
    hide ItemsOf;
    if |o.insts| == 1 {
      assert o.insts[1..] == [];
      assert InstItems(o.tok, o.insts, counters) ==
             [Inst(o.tok, ItemsOf(o.insts[0].own, counters))] + InstItems(o.tok, o.insts[1..], counters);
    }
  }

  lemma {:induction false} StopsUnfold(toks: seq<Token<string>>, stops: Stops, inc: nat, stop: Option<string>)
    requires inc < |toks| && stop != Some(toks[inc].tag)
    ensures var tok := toks[inc];
            ParseStops(toks, stops, inc, stop) ==
            if tok.tag in stops && inc + 1 < |toks| && toks[inc + 1].tag != stops[tok.tag] then
              var body := ParseStops(toks, stops, inc + 1, Some(stops[tok.tag]));
              var rest := ParseStops(toks, stops, body.next, stop);
              Parsed([Inst(tok, body.items)] + rest.items, rest.next)
            else
              var rest := ParseStops(toks, stops, inc + 1, stop);
              Parsed((if tok.tag in stops then [] else [Leaf(tok)]) + rest.items, rest.next)
  {
  }

  lemma {:induction false} StopReadsTail(toks: seq<Token<string>>, stops: Stops, stop: Option<string>, a: Span<string>)
    requires StopReads(toks, stops, stop, a) && a.own != []
    ensures var o := a.own[0];
            && OwnStops(toks, stops, o) && stop != Some(o.tok.tag) && o.pos == a.lo < End(o) <= |toks|
            && StopReads(toks, stops, stop, Span(End(o), a.hi, a.own[1..]))
  {
    hide OwnStops, End;
    var o, rest := a.own[0], a.own[1..];
    assert o in a.own && forall x <- rest :: x in a.own;
    OwnStopGrows(toks, stops, o);
    StopsGrow(toks, stops, rest, End(o), a.hi);
  }

  lemma {:induction false} OwnStopGrows(toks: seq<Token<string>>, stops: Stops, o: Own<string>)
    requires OwnStops(toks, stops, o)
    ensures o.pos < End(o) <= |toks|
  {
  }

  lemma {:induction false} StopsGrow(toks: seq<Token<string>>, stops: Stops, own: seq<Own<string>>, lo: nat, hi: nat)
    requires Chained(own, lo, hi) && forall o <- own :: OwnStops(toks, stops, o)
    ensures lo <= hi
  {
    hide OwnStops;
    if own != [] {
      assert own[0] in own;
      OwnStopGrows(toks, stops, own[0]);
      StopsGrow(toks, stops, own[1..], End(own[0]), hi);
    }
  }

  lemma {:induction false} StopReadingIsParse(toks: seq<Token<string>>, stops: Stops, stop: Option<string>,
      a: Span<string>)
    requires StopReads(toks, stops, stop, a) && a.lo <= |toks|
    ensures ParseStops(toks, stops, a.lo, stop) == Parsed(ItemsOf(a.own, stops.Keys), a.hi)
    decreases |toks| - a.lo
  {
    hide StopReads, ParseStops, ItemsOf, OwnItems;
    if a.own == [] {
      NoOwnStops(toks, stops, stop, a);
      NothingStops(toks, stops, a.lo, stop);
    } else {
      var o, rest := a.own[0], a.own[1..];
      StopReadsTail(toks, stops, stop, a);
      if o.insts != [] {
        StopReadingIsParse(toks, stops, Some(stops[o.tok.tag]), o.insts[0]);
      }
      StopReadingIsParse(toks, stops, stop, Span(End(o), a.hi, rest));
      assert [o] + rest == a.own;
      StopsUnfold(toks, stops, a.lo, stop);
      ItemsCons(o, rest, stops.Keys);
      SingleOwnItems(o, stops.Keys);
    }
  }

  lemma {:induction false} NoOwnStops(toks: seq<Token<string>>, stops: Stops, stop: Option<string>, a: Span<string>)
    requires StopReads(toks, stops, stop, a) && a.own == []
    ensures a.lo == a.hi <= |toks| && (a.lo == |toks| || stop == Some(toks[a.lo].tag))
  {
  }

  /** The division of the tokens is the items and the end of a right reading; there is one, and every right
      reading gives the same. */
  lemma {:induction false} StopDivisionIsRight(toks: seq<Token<string>>, stops: Stops, inc: nat, stop: Option<string>)
    requires inc <= |toks|
    ensures exists a :: StopReads(toks, stops, stop, a) && a.lo == inc
    ensures forall a :: StopReads(toks, stops, stop, a) && a.lo == inc ==>
              ParseStops(toks, stops, inc, stop) == Parsed(ItemsOf(a.own, stops.Keys), a.hi)
  {
    hide StopReads, ParseStops, ItemsOf;
    var a := StopsRead(toks, stops, inc, stop);
    forall a | StopReads(toks, stops, stop, a) && a.lo == inc
      ensures ParseStops(toks, stops, inc, stop) == Parsed(ItemsOf(a.own, stops.Keys), a.hi)
    {
      StopReadingIsParse(toks, stops, stop, a);
    }
  }

  lemma {:induction false} ItemsFromOwn(own: seq<Own<string>>, counters: set<string>, item: Item<string>)
    requires item in ItemsOf(own, counters)
    ensures exists o <- own :: o.tok == item.tok
  {
    hide OwnItems;
    if item in OwnItems(own[0], counters) {
      OwnItemTok(own[0], counters, item);
      assert own[0] in own;
    } else {
      ItemsFromOwn(own[1..], counters, item);
      var o :| o in own[1..] && o.tok == item.tok;
      assert o in own;
    }
  }

  lemma {:induction false} OwnItemTok(o: Own<string>, counters: set<string>, item: Item<string>)
    requires item in OwnItems(o, counters)
    ensures item.tok == o.tok
  {
    if o.insts != [] {
      InstItemTok(o.tok, o.insts, counters, item);
    }
  }

  lemma {:induction false} InstItemTok(tok: Token<string>, insts: seq<Span<string>>, counters: set<string>,
      item: Item<string>)
    requires item in InstItems(tok, insts, counters)
    ensures item.tok == tok
  {
    hide ItemsOf;
    if item != Inst(tok, ItemsOf(insts[0].own, counters)) {
      InstItemTok(tok, insts[1..], counters, item);
    }
  }

  /** A group ends in front of its stop tag and holds none at its own level; the outermost level ends with
      the message. */
  lemma {:induction false} GroupEndsAtStop(toks: seq<Token<string>>, stops: Stops, inc: nat, stop: Option<string>)
    requires inc <= |toks|
    ensures var r := ParseStops(toks, stops, inc, stop);
            && (forall item <- r.items :: stop != Some(item.tok.tag))
            && inc <= r.next <= |toks| && (r.next == |toks| || stop == Some(toks[r.next].tag))
  {
    hide ParseStops, ItemsOf;
    var a := StopsRead(toks, stops, inc, stop);
    forall item | item in ItemsOf(a.own, stops.Keys)
      ensures stop != Some(item.tok.tag)
    {
      ItemsFromOwn(a.own, stops.Keys, item);
    }
  }

  // ---- The message is kept

  /** Leaves and instances in preorder, as the tokens they came from */
  function Preorder(items: seq<Item<string>>): seq<Token<string>> {
    if items == [] then [] else PreorderOf(items[0]) + Preorder(items[1..])
  }

  function PreorderOf(item: Item<string>): seq<Token<string>> {
    match item
    case Leaf(tok) => [tok]
    case Inst(tok, body) => [tok] + Preorder(body)
  }

  /** The tokens without the start tags that open nothing */
  function Kept(toks: seq<Token<string>>, stops: Stops, lo: nat, hi: nat): seq<Token<string>>
    requires lo <= hi <= |toks|
    decreases hi - lo
  {
    if lo == hi then []
    else (if toks[lo].tag in stops && !Opens(toks, stops, lo) then [] else [toks[lo]]) + Kept(toks, stops, lo + 1, hi)
  }

  lemma {:induction false} KeptSplit(toks: seq<Token<string>>, stops: Stops, lo: nat, mid: nat, hi: nat)
    requires lo <= mid <= hi <= |toks|
    ensures Kept(toks, stops, lo, hi) == Kept(toks, stops, lo, mid) + Kept(toks, stops, mid, hi)
    decreases mid - lo
  {
    if lo < mid {
      KeptSplit(toks, stops, lo + 1, mid, hi);
    }
  }

  lemma {:induction false} PreorderCons(item: Item<string>, rest: seq<Item<string>>)
    ensures Preorder([item] + rest) == PreorderOf(item) + Preorder(rest)
  {
    assert ([item] + rest)[1..] == rest;
  }

  lemma {:induction false} ParseKeepsTokens(toks: seq<Token<string>>, stops: Stops, inc: nat, stop: Option<string>)
    requires inc <= |toks|
    ensures var r := ParseStops(toks, stops, inc, stop); Preorder(r.items) == Kept(toks, stops, inc, r.next)
    decreases |toks| - inc
  {
    hide Preorder, PreorderOf, Kept, ParseStops, AtStop;
    NothingKept(toks, stops, inc);
    if inc == |toks| || AtStop(toks, inc, stop) {
      ParseEnds(toks, stops, inc, stop, [], map[], 0);
    } else {
      var tok := toks[inc];
      ParseStopsStep(toks, stops, inc, stop);
      KeptStep(toks, stops, inc, ParseStops(toks, stops, inc, stop).next);
      if Opens(toks, stops, inc) {
        var body := ParseStops(toks, stops, inc + 1, Some(stops[tok.tag]));
        var rest := ParseStops(toks, stops, body.next, stop);
        ParseKeepsTokens(toks, stops, inc + 1, Some(stops[tok.tag]));
        ParseKeepsTokens(toks, stops, body.next, stop);
        PreorderCons(Inst(tok, body.items), rest.items);
        PreorderOfInst(tok, body.items);
        KeptSplit(toks, stops, inc + 1, body.next, rest.next);
      } else {
        ParseKeepsTokens(toks, stops, inc + 1, stop);
        PreorderCons(Leaf(tok), ParseStops(toks, stops, inc + 1, stop).items);
        PreorderOfLeaf(tok);
      }
    }
  }

  lemma {:induction false} NothingKept(toks: seq<Token<string>>, stops: Stops, inc: nat)
    requires inc <= |toks|
    ensures Kept(toks, stops, inc, inc) == [] && Preorder([]) == []
  {
  }

  lemma {:induction false} KeptStep(toks: seq<Token<string>>, stops: Stops, lo: nat, hi: nat)
    requires lo < hi <= |toks|
    ensures var rest := Kept(toks, stops, lo + 1, hi);
            Kept(toks, stops, lo, hi) == if toks[lo].tag in stops && !Opens(toks, stops, lo) then rest
                else [toks[lo]] + rest
  {
  }

  lemma {:induction false} PreorderOfInst(tok: Token<string>, body: seq<Item<string>>)
    ensures PreorderOf(Inst(tok, body)) == [tok] + Preorder(body)
  {
  }

  lemma {:induction false} PreorderOfLeaf(tok: Token<string>)
    ensures PreorderOf(Leaf(tok)) == [tok]
  {
  }

  lemma {:induction false} ParseSeparates(toks: seq<Token<string>>, stops: Stops, inc: nat, stop: Option<string>)
    requires inc <= |toks|
    ensures Separated(ParseStops(toks, stops, inc, stop).items, stops.Keys)
    decreases |toks| - inc
  {
    if inc < |toks| && !AtStop(toks, inc, stop) {
      if Opens(toks, stops, inc) {
        var body := ParseStops(toks, stops, inc + 1, Some(stops[toks[inc].tag]));
        ParseSeparates(toks, stops, inc + 1, Some(stops[toks[inc].tag]));
        ParseSeparates(toks, stops, body.next, stop);
      } else {
        ParseSeparates(toks, stops, inc + 1, stop);
      }
    }
  }

  /** All nodes in preorder with their values in slot 0 */
  function TreePreorder(trees: seq<Tree>): seq<Token<string>> {
    if trees == [] then [] else PreorderBelow(trees[0]) + TreePreorder(trees[1..])
  }

  function PreorderBelow(t: Tree): seq<Token<string>> {
    [Token(t.tag, t.vals[0])] + TreePreorder(t.kids)
  }

  lemma {:induction false} RenderedPreorder(items: seq<Item<string>>)
    ensures TreePreorder(Rendered(items)) == Preorder(items)
    decreases items
  {
    if items != [] {
      RenderedItemPreorder(items[0]);
      RenderedPreorder(items[1..]);
      var trees := Rendered(items);
      assert trees[0] == RenderedItem(items[0]) && trees[1..] == Rendered(items[1..]);
    }
  }

  lemma {:induction false} RenderedItemPreorder(item: Item<string>)
    ensures PreorderBelow(RenderedItem(item)) == PreorderOf(item)
    decreases item
  {
    if item.Inst? {
      RenderedPreorder(item.body);
    }
  }

  /** The tree built in slot 0 lists, in preorder, exactly the message without the start tags that are
      followed by their own stop tag; unclosed groups and groups nested in their own kind included. */
  lemma {:induction false} BuiltTreeKeepsMessage(toks: seq<Token<string>>, stops: Stops)
    ensures var r := ParseStops(toks, stops, 0, None);
            r.next == |toks| && TreePreorder(Merge([], r.items, map[], 0)) == Kept(toks, stops, 0, |toks|)
  {
    hide TreePreorder, Preorder, Kept, Merge;
    var items := ParseStops(toks, stops, 0, None).items;
    ParseKeepsTokens(toks, stops, 0, None);
    BuildAppends([], items, map[]);
    assert Merge([], items, map[], 0) == Rendered(items);
    RenderedPreorder(items);
  }

  lemma {:induction false} StartStopSelfMerge(toks: seq<Token<string>>, stops: Stops, k: Slot)
    requires k > 0
    ensures var items := ParseStops(toks, stops, 0, None).items;
            var built := Merge([], items, map[], 0);
            var merged := Merge(built, items, map[], k);
            SameNodes(built, merged, k) && (SlotsAgree(merged, stops.Keys, k) <==> NoConflictBelow(items))
  {
    ParseSeparates(toks, stops, 0, None);
    SelfMergeOfItems(ParseStops(toks, stops, 0, None).items, stops.Keys, k);
  }

  /** A message merged into an empty slot: the slot holds the values of its leaves, all of them exactly
      when no leaf displaces a value on its level. */
  lemma {:induction false} StartStopConserves(kids: seq<Tree>, toks: seq<Token<string>>, stops: Stops, k: Slot)
    requires k > 0 && SlotEmpty(kids, k)
    ensures var items := ParseStops(toks, stops, 0, None).items;
            var held := SlotLeaves(Merge(kids, items, map[], k), stops.Keys, k);
            held <= NonEmpty(Leaves(items)) && (held == NonEmpty(Leaves(items)) <==> NothingDisplacedBelow(items,
                |items|))
  {
    ParseSeparates(toks, stops, 0, None);
    MergeConservesItems(kids, ParseStops(toks, stops, 0, None).items, stops.Keys, k);
  }

  /** ... and every value is in its place if, on every level, the nodes of every start tag are next to each
      other or numerous enough; and only then, unless two groups of one start tag have the same values. */
  lemma {:induction false} StartStopPlaces(kids: seq<Tree>, toks: seq<Token<string>>, stops: Stops, k: Slot)
    requires k > 0 && SlotEmpty(kids, k)
    ensures var items := ParseStops(toks, stops, 0, None).items;
            var merged := Merge(kids, items, map[], k);
            (Fits(kids, items, stops.Keys) ==> InPlace(merged, items, stops.Keys, k))
            && (Distinct(items) && InPlace(merged, items, stops.Keys, k) ==> Fits(kids, items, stops.Keys))
  {
    hide Merge, InPlace, Fits, Distinct, SlotEmpty, ParseStops, Separated;
    ParseSeparates(toks, stops, 0, None);
    MergeInPlace(kids, ParseStops(toks, stops, 0, None).items, stops.Keys, k);
  }

  // ---- ssmake

  method Ssmake(rT: Ruv, toks: seq<Token<string>>, stops: Stops, idx: Slot, inc0: nat, stop: Option<string>)
    returns (inc: nat)
    requires rT.Valid() && inc0 <= |toks| && EndsWithoutStart(toks, stops)
    modifies rT.Repr
    ensures rT.Valid() && fresh(rT.Repr - old(rT.Repr))
    ensures inc == ParseStops(toks, stops, inc0, stop).next
    ensures rT.tree == old(rT.tree).(kids := Merge(old(rT.tree).kids, ParseStops(toks, stops, inc0, stop).items,
        map[], idx))
    decreases |toks| - inc0, 0
  {
    hide Merge, MergeItem, ParseStops, Place, SameCounts, Ruv.Valid;
    ghost var goal := Merge(rT.tree.kids, ParseStops(toks, stops, inc0, stop).items, map[], idx);
    inc := inc0;
    var counts: Counts := map[];
    ghost var met: Counts := map[];
    NothingCounted();
    while inc < |toks|
      invariant inc0 <= inc <= |toks|
      invariant rT.Valid() && fresh(rT.Repr - old(rT.Repr)) && rT.tree == old(rT.tree).(kids := rT.tree.kids)
      invariant SameCounts(counts, met)
      invariant ParseStops(toks, stops, inc, stop).next == ParseStops(toks, stops, inc0, stop).next
      invariant Merge(rT.tree.kids, ParseStops(toks, stops, inc, stop).items, met, idx) == goal
      decreases |toks| - inc
    {
      var tok := toks[inc];
      if stop.Some? && stop.value == tok.tag {
        ParseEnds(toks, stops, inc, stop, rT.tree.kids, met, idx);
        return;
      }
      ParseStopsStep(toks, stops, inc, stop);
      if tok.tag in stops {
        if tok.tag !in counts {
          CountFromZero(counts, met, tok.tag);
          counts := counts[tok.tag := 0];
        }
        var npair := toks[inc + 1];
        if npair.tag != stops[tok.tag] {
          inc, counts, met := SsmakeGroup(rT, toks, stops, idx, inc, counts, met, stop);
        } else {
          inc := inc + 1;
        }
      } else {
        MergeCons(rT.tree.kids, Leaf(tok), ParseStops(toks, stops, inc + 1, stop).items, met, idx);
        MergeLeaf(rT.tree.kids, tok, met, idx);
        rT.SetLeaf(tok, idx);
        inc := inc + 1;
      }
    }
    ParseEnds(toks, stops, inc, stop, rT.tree.kids, met, idx);
  }

  lemma {:induction false} ParseEnds(toks: seq<Token<string>>, stops: Stops, inc: nat, stop: Option<string>,
          kids: seq<Tree>, counts: Counts, idx: Slot)
    requires inc <= |toks| && (inc == |toks| || AtStop(toks, inc, stop))
    ensures ParseStops(toks, stops, inc, stop) == Parsed([], inc)
    ensures Merge(kids, [], counts, idx) == kids
  {
  }

  lemma {:induction false} ParseStopsStep(toks: seq<Token<string>>, stops: Stops, inc: nat, stop: Option<string>)
    requires inc < |toks| && !AtStop(toks, inc, stop)
    ensures var tok := toks[inc];
            ParseStops(toks, stops, inc, stop) ==
            if Opens(toks, stops, inc) then
              var body := ParseStops(toks, stops, inc + 1, Some(stops[tok.tag]));
              var rest := ParseStops(toks, stops, body.next, stop);
              Parsed([Inst(tok, body.items)] + rest.items, rest.next)
            else
              var rest := ParseStops(toks, stops, inc + 1, stop);
              if tok.tag in stops then rest else Parsed([Leaf(tok)] + rest.items, rest.next)
  {
    var rest := ParseStops(toks, stops, inc + 1, stop);
    assert [] + rest.items == rest.items;
  }

  /** The inner loop, which makes one turn: the recursive call ends at the stop tag or at the end. */
  method SsmakeGroup(rT: Ruv, toks: seq<Token<string>>, stops: Stops, idx: Slot, start: nat, counts0: Counts,
          ghost met0: Counts, ghost stop: Option<string>)
    returns (inc: nat, counts: Counts, ghost met: Counts)
    requires rT.Valid() && EndsWithoutStart(toks, stops) && start < |toks|
    requires Opens(toks, stops, start) && !AtStop(toks, start, stop)
    requires toks[start].tag in counts0 && SameCounts(counts0, met0)
    modifies rT.Repr
    ensures rT.Valid() && fresh(rT.Repr - old(rT.Repr)) && rT.tree == old(rT.tree).(kids := rT.tree.kids)
    ensures start < inc <= |toks| && SameCounts(counts, met)
    ensures ParseStops(toks, stops, inc, stop).next == ParseStops(toks, stops, start, stop).next
    ensures Merge(rT.tree.kids, ParseStops(toks, stops, inc, stop).items, met, idx) ==
            Merge(old(rT.tree).kids, ParseStops(toks, stops, start, stop).items, met0, idx)
    decreases |toks| - start - 1, 3
  {
    hide Merge, MergeItem, ParseStops, Place, SameCounts, Ruv.Valid;
    var tok := toks[start];
    var own := stops[tok.tag];
    ghost var body := ParseStops(toks, stops, start + 1, Some(own));
    ghost var item := Inst(tok, body.items);
    ghost var rest := ParseStops(toks, stops, body.next, stop);
    ParseStopsStep(toks, stops, start, stop);
    MergeCons(rT.tree.kids, item, rest.items, met0, idx);
    CountOneMore(counts0, met0, tok.tag);
    var pos := start + 1;
    var npair := toks[pos];
    inc, counts, met := start, counts0, met0;
    while pos < |toks| && npair.tag != own
      invariant start < pos <= |toks| && (pos < |toks| ==> npair == toks[pos])
      invariant rT.Valid() && fresh(rT.Repr - old(rT.Repr)) && rT.tree == old(rT.tree).(kids := rT.tree.kids)
      invariant if inc == start then pos == start + 1 && counts == counts0 && met == met0 && rT.tree == old(rT.tree)
                else
                  inc == pos == body.next && (pos == |toks| || npair.tag == own) && met == Counted(met0, item)
                  && SameCounts(counts, met) && rT.tree.kids == MergeItem(old(rT.tree).kids, item, met0, idx)
      decreases |toks| - pos, if inc == start then 1 else 0
    {
      counts := counts[tok.tag := counts[tok.tag] + 1];
      inc := SsmakeInstance(rT, toks, stops, idx, tok, counts[tok.tag], pos, met);
      met := Counted(met, item);
      pos := inc;
      if pos < |toks| {
        npair := toks[pos];
      }
    }
  }

  method SsmakeInstance(rT: Ruv, toks: seq<Token<string>>, stops: Stops, idx: Slot, start: Token<string>, n: nat,
          pos: nat, ghost met: Counts)
    returns (inc: nat)
    requires rT.Valid() && EndsWithoutStart(toks, stops) && pos <= |toks|
    requires start.tag in stops && n == CountOf(met, start.tag) + 1
    modifies rT.Repr
    ensures rT.Valid() && fresh(rT.Repr - old(rT.Repr))
    ensures inc == ParseStops(toks, stops, pos, Some(stops[start.tag])).next
    ensures var item := Inst(start, ParseStops(toks, stops, pos, Some(stops[start.tag])).items);
            rT.tree == old(rT.tree).(kids := MergeItem(old(rT.tree).kids, item, met, idx))
    decreases |toks| - pos, 2
  {
    hide Merge, ParseStops, Place, Ruv.Valid;
    ghost var at;
    var p;
    at, p := rT.PlaceInstance(start, idx, n);
    inc := SsmakeKid(rT, at, p, toks, stops, idx, pos, Some(stops[start.tag]));
  }

  method SsmakeKid(rT: Ruv, ghost at: nat, p: Ruv, toks: seq<Token<string>>, stops: Stops, idx: Slot, pos: nat,
          stop: Option<string>)
    returns (inc: nat)
    requires rT.Valid() && EndsWithoutStart(toks, stops) && pos <= |toks|
    requires at < |rT.kids| && p == rT.kids[at] && at < |rT.tree.kids|
    modifies rT.Repr
    ensures rT.Valid() && fresh(rT.Repr - old(rT.Repr))
    ensures inc == ParseStops(toks, stops, pos, stop).next
    ensures var kid := old(rT.tree).kids[at];
            rT.tree == old(rT.tree).(kids := old(rT.tree).kids[at :=
              kid.(kids := Merge(kid.kids, ParseStops(toks, stops, pos, stop).items, map[], idx))])
    decreases |toks| - pos, 1
  {
    hide Merge, ParseStops;
    ghost var kids := rT.kids;
    assert forall j :: 0 <= j < |kids| && j != at ==> kids[j].Repr !! p.Repr;
    inc := Ssmake(p, toks, stops, idx, pos, stop);
    assert forall j :: 0 <= j < |kids| && j != at ==> kids[j].Valid();
    rT.KidChanged(at);
  }
}
