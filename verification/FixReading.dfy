/** Which divisions of a token list into groups are right, said of the tokens at the own level of every
    group instance; and that the division of FixGroups is right, and the only one that is. */
module FixReading {
  import opened Wrappers
  import opened FixGroups

  /** The tokens from `lo` up to `hi` as one group instance reads them: those at its own level, each with
      the instances that follow it */
  datatype Span<T> = Span(lo: nat, hi: nat, own: seq<Own<T>>)

  datatype Own<T> = Own(tok: Token<T>, pos: nat, insts: seq<Span<T>>)

  function End<T>(o: Own<T>): nat {
    if o.insts == [] then o.pos + 1 else o.insts[|o.insts| - 1].hi
  }

  /** The tokens follow one another, from `lo` to `hi`. */
  predicate Chained<T>(own: seq<Own<T>>, lo: nat, hi: nat) {
    if own == [] then lo == hi else own[0].pos == lo && Chained(own[1..], End(own[0]), hi)
  }

  predicate Adjacent<T>(insts: seq<Span<T>>, lo: nat, hi: nat) {
    if insts == [] then lo == hi else insts[0].lo == lo && Adjacent(insts[1..], insts[0].hi, hi)
  }

  predicate OpensGroup<T(==)>(toks: seq<Token<T>>, groups: Groups<T>, pos: nat) {
    pos + 1 < |toks| && toks[pos].tag in groups && toks[pos + 1].tag in groups[toks[pos].tag]
  }

  /** One instance of a group with the members `s` (or the outermost level, when there is none), which has
      already taken some tags. It takes members only, each tag once, and goes on as long as it can: it ends
      at the end of the message, at a tag that is no member, or at one that it has taken. A counter that a
      member of its group follows is followed by instances, and they go on as long as members follow. */
  predicate Reads<T(==)>(toks: seq<Token<T>>, groups: Groups<T>, s: Option<set<T>>, taken: set<T>, a: Span<T>)
    decreases a
  {
    && a.lo <= a.hi <= |toks| && Chained(a.own, a.lo, a.hi)
    && (s.Some? ==> TakesEachOnce(s.value, taken, a.own))
    && (a.hi == |toks| || (s.Some? && CannotTake(s.value, taken, a.own, toks[a.hi].tag)))
    && (forall o <- a.own :: OwnReads(toks, groups, o))
  }

  predicate OwnReads<T(==)>(toks: seq<Token<T>>, groups: Groups<T>, o: Own<T>)
    decreases o
  {
    && o.pos < |toks| && toks[o.pos] == o.tok
    && if OpensGroup(toks, groups, o.pos) then
         && o.insts != [] && Adjacent(o.insts, o.pos + 1, End(o))
         && (forall i <- o.insts :: i.own != [] && Reads(toks, groups, Some(groups[o.tok.tag]), {}, i))
         && (End(o) == |toks| || (End(o) < |toks| && toks[End(o)].tag !in groups[o.tok.tag]))
       else o.insts == []
  }

  predicate TakesEachOnce<T(==)>(s: set<T>, taken: set<T>, own: seq<Own<T>>) {
    && (forall o <- own :: o.tok.tag in s && o.tok.tag !in taken)
    && (forall i, j :: 0 <= i < j < |own| ==> own[i].tok.tag != own[j].tok.tag)
  }

  predicate CannotTake<T(==)>(s: set<T>, taken: set<T>, own: seq<Own<T>>, tag: T) {
    tag !in s || tag in taken || exists o <- own :: o.tok.tag == tag
  }

  /** The items of a reading */
  function ItemsOf<T(==)>(own: seq<Own<T>>, counters: set<T>): seq<Item<T>> {
    if own == [] then [] else OwnItems(own[0], counters) + ItemsOf(own[1..], counters)
  }

  function OwnItems<T(==)>(o: Own<T>, counters: set<T>): seq<Item<T>> {
    if o.insts == [] then (if o.tok.tag in counters then [] else [Leaf(o.tok)]) else InstItems(o.tok, o.insts, counters)
  }

  function InstItems<T(==)>(tok: Token<T>, insts: seq<Span<T>>, counters: set<T>): seq<Item<T>>
    decreases insts
  {
    if insts == [] then [] else [Inst(tok, ItemsOf(insts[0].own, counters))] + InstItems(tok, insts[1..], counters)
  }

  function Less<T(==)>(s: Option<set<T>>, taken: set<T>): Option<set<T>> {
    if s.None? then None else Some(s.value - taken)
  }

  // ---- The division is right

  lemma {:induction false} LessThenWithout<T>(s: Option<set<T>>, taken: set<T>, tag: T)
    ensures Without(Less(s, taken), tag) == Less(s, taken + {tag})
  {
    if s.Some? {
      assert s.value - taken - {tag} == s.value - (taken + {tag});
    }
  }

  lemma {:induction false} StartIsOpening<T>(toks: seq<Token<T>>, groups: Groups<T>, pos: nat)
    requires pos < |toks|
    ensures StartsMember(toks, groups, toks[pos].tag, pos + 1) <==> OpensGroup(toks, groups, pos)
  {
  }

  /** A token in front of a reading */
  lemma {:induction false} ReadsCons<T>(toks: seq<Token<T>>, groups: Groups<T>, s: Option<set<T>>, taken: set<T>,
          o: Own<T>, rest: Span<T>)
    requires OwnReads(toks, groups, o) && End(o) == rest.lo && o.pos <= rest.lo
    requires s.Some? ==> o.tok.tag in s.value && o.tok.tag !in taken
    requires Reads(toks, groups, s, taken + {o.tok.tag}, rest)
    ensures Reads(toks, groups, s, taken, Span(o.pos, rest.hi, [o] + rest.own))
  {
    hide OwnReads, End;
    var own := [o] + rest.own;
    assert own[0] == o && own[1..] == rest.own;
    assert forall x :: x in own <==> x == o || x in rest.own;
  }

  lemma {:induction false} NothingRead<T>(toks: seq<Token<T>>, groups: Groups<T>, s: Option<set<T>>, taken: set<T>,
      inc: nat)
    requires inc <= |toks| && (inc == |toks| || !Accepts(Less(s, taken), toks[inc].tag))
    ensures Reads(toks, groups, s, taken, Span(inc, inc, []))
    ensures Parse(toks, groups, inc, Less(s, taken)) == Parsed([], inc)
  {
  }

  lemma {:induction false} ItemsCons<T>(o: Own<T>, rest: seq<Own<T>>, counters: set<T>)
    ensures ItemsOf([o] + rest, counters) == OwnItems(o, counters) + ItemsOf(rest, counters)
  {
    assert ([o] + rest)[1..] == rest;
  }

  lemma {:induction false} ParseReads<T>(toks: seq<Token<T>>, groups: Groups<T>, inc: nat, s: Option<set<T>>,
      taken: set<T>)
    returns (a: Span<T>)
    requires inc <= |toks|
    ensures Reads(toks, groups, s, taken, a) && a.lo == inc
    ensures Parse(toks, groups, inc, Less(s, taken)) == Parsed(ItemsOf(a.own, groups.Keys), a.hi)
    ensures inc < |toks| && Accepts(Less(s, taken), toks[inc].tag) ==> a.own != []
    decreases |toks| - inc, 0
  {
    hide Reads, Parse, ParseInstances, ItemsOf, OwnItems, Chained, Adjacent;
    if inc == |toks| || !Accepts(Less(s, taken), toks[inc].tag) {
      NothingRead(toks, groups, s, taken, inc);
      a := Span(inc, inc, []);
      NoItems(groups);
    } else {
      var tok := toks[inc];
      LessThenWithout(s, taken, tok.tag);
      StartIsOpening(toks, groups, inc);
      var insts: seq<Span<T>> := [];
      if OpensGroup(toks, groups, inc) {
        insts := InstancesRead(toks, groups, tok, inc + 1);
      }
      var o := Own(tok, inc, insts);
      var rest := ParseReads(toks, groups, End(o), s, taken + {tok.tag});
      ReadsCons(toks, groups, s, taken, o, rest);
      a := Span(inc, rest.hi, [o] + rest.own);
      ItemsCons(o, rest.own, groups.Keys);
      ParseUnfolds(toks, groups, inc, Less(s, taken));
      OwnItemsIs(o, groups.Keys);
    }
  }

  lemma {:induction false} NoItems<T>(groups: Groups<T>)
    ensures ItemsOf<T>([], groups.Keys) == []
  {
  }

  lemma {:induction false} OwnItemsIs<T>(o: Own<T>, counters: set<T>)
    ensures OwnItems(o, counters) ==
            if o.insts == [] then (if o.tok.tag in counters then [] else [Leaf(o.tok)])
            else InstItems(o.tok, o.insts, counters)
  {
  }

  lemma {:induction false} ParseUnfolds<T>(toks: seq<Token<T>>, groups: Groups<T>, inc: nat, active: Option<set<T>>)
    requires inc < |toks| && Accepts(active, toks[inc].tag)
    ensures var tok := toks[inc];
            var left := Without(active, tok.tag);
            Parse(toks, groups, inc, active) ==
            if OpensGroup(toks, groups, inc) then
              var insts := ParseInstances(toks, groups, tok, inc + 1);
              var rest := Parse(toks, groups, insts.next, left);
              Parsed(insts.items + rest.items, rest.next)
            else
              var rest := Parse(toks, groups, inc + 1, left);
              Parsed((if tok.tag in groups then [] else [Leaf(tok)]) + rest.items, rest.next)
  {
    StartIsOpening(toks, groups, inc);
  }

  /** The instances behind a counter */
  lemma {:induction false} InstancesRead<T>(toks: seq<Token<T>>, groups: Groups<T>, counter: Token<T>, pos: nat)
    returns (insts: seq<Span<T>>)
    requires pos <= |toks| && counter.tag in groups
    ensures var r := ParseInstances(toks, groups, counter, pos);
            && Adjacent(insts, pos, r.next) && InstItems(counter, insts, groups.Keys) == r.items
            && (insts != [] ==> insts[|insts| - 1].hi == r.next) && (insts == [] ==> r.next == pos)
            && (r.next == |toks| || toks[r.next].tag !in groups[counter.tag])
    ensures forall i <- insts :: i.own != [] && Reads(toks, groups, Some(groups[counter.tag]), {}, i)
    ensures pos < |toks| && toks[pos].tag in groups[counter.tag] ==> insts != []
    decreases |toks| - pos, 1
  {
    hide Reads, Parse, ItemsOf;
    if pos < |toks| && toks[pos].tag in groups[counter.tag] {
      assert groups[counter.tag] - {} == groups[counter.tag];
      var first := ParseReads(toks, groups, pos, Some(groups[counter.tag]), {});
      var rest := InstancesRead(toks, groups, counter, first.hi);
      insts := [first] + rest;
      assert insts[1..] == rest;
    } else {
      insts := [];
    }
  }

  // ---- ... and the only right one

  lemma {:induction false} ReadsTail<T>(toks: seq<Token<T>>, groups: Groups<T>, s: Option<set<T>>, taken: set<T>,
      a: Span<T>)
    requires Reads(toks, groups, s, taken, a) && a.own != []
    ensures var o := a.own[0];
            && OwnReads(toks, groups, o) && o.pos == a.lo < End(o) <= |toks|
            && (s.Some? ==> o.tok.tag in s.value && o.tok.tag !in taken)
            && Reads(toks, groups, s, taken + {o.tok.tag}, Span(End(o), a.hi, a.own[1..]))
  {
    hide OwnReads, End;
    var o, rest := a.own[0], a.own[1..];
    assert o in a.own && forall x <- rest :: x in a.own;
    OwnGrows(toks, groups, o);
    ChainedGrows(toks, groups, rest, End(o), a.hi);
    TailTakes(toks, groups, s, taken, a);
  }

  lemma {:induction false} TailTakes<T>(toks: seq<Token<T>>, groups: Groups<T>, s: Option<set<T>>, taken: set<T>,
      a: Span<T>)
    requires Reads(toks, groups, s, taken, a) && a.own != []
    ensures var o, rest := a.own[0], a.own[1..];
            (s.Some? ==> TakesEachOnce(s.value, taken + {o.tok.tag}, rest))
            && (a.hi == |toks| || (s.Some? && CannotTake(s.value, taken + {o.tok.tag}, rest, toks[a.hi].tag)))
  {
    hide OwnReads, End, Chained;
    var o, rest := a.own[0], a.own[1..];
    assert forall x :: x in a.own <==> x == o || x in rest;
    assert forall i :: 0 <= i < |rest| ==> rest[i] == a.own[i + 1];
  }

  lemma {:induction false} OwnGrows<T>(toks: seq<Token<T>>, groups: Groups<T>, o: Own<T>)
    requires OwnReads(toks, groups, o)
    ensures o.pos < End(o) <= |toks|
  {
    if o.insts != [] {
      AdjacentGrows(toks, groups, Some(groups[o.tok.tag]), o.insts, o.pos + 1, End(o));
    }
  }

  lemma {:induction false} AdjacentGrows<T>(toks: seq<Token<T>>, groups: Groups<T>, s: Option<set<T>>,
      insts: seq<Span<T>>, lo: nat, hi: nat)
    requires Adjacent(insts, lo, hi) && forall i <- insts :: Reads(toks, groups, s, {}, i)
    ensures lo <= hi
  {
    if insts != [] {
      assert insts[0] in insts;
      AdjacentGrows(toks, groups, s, insts[1..], insts[0].hi, hi);
    }
  }

  lemma {:induction false} ChainedGrows<T>(toks: seq<Token<T>>, groups: Groups<T>, own: seq<Own<T>>, lo: nat, hi: nat)
    requires Chained(own, lo, hi) && forall o <- own :: OwnReads(toks, groups, o)
    ensures lo <= hi
  {
    hide OwnReads;
    if own != [] {
      assert own[0] in own;
      OwnGrows(toks, groups, own[0]);
      ChainedGrows(toks, groups, own[1..], End(own[0]), hi);
    }
  }

  lemma {:induction false} ReadingEnds<T>(toks: seq<Token<T>>, groups: Groups<T>, s: Option<set<T>>, taken: set<T>,
      a: Span<T>)
    requires Reads(toks, groups, s, taken, a) && a.own == []
    ensures a.lo == a.hi <= |toks| && (a.lo == |toks| || !Accepts(Less(s, taken), toks[a.lo].tag))
  {
  }

  lemma {:induction false} ReadingIsParse<T>(toks: seq<Token<T>>, groups: Groups<T>, s: Option<set<T>>, taken: set<T>,
      a: Span<T>)
    requires Reads(toks, groups, s, taken, a) && a.lo <= |toks|
    ensures Parse(toks, groups, a.lo, Less(s, taken)) == Parsed(ItemsOf(a.own, groups.Keys), a.hi)
    decreases |toks| - a.lo, 0
  {
    hide Reads, Parse, ParseInstances, ItemsOf, OwnItems, Chained, Adjacent;
    if a.own == [] {
      ReadingEnds(toks, groups, s, taken, a);
      NothingRead(toks, groups, s, taken, a.lo);
      NoItems(groups);
    } else {
      var o, rest := a.own[0], a.own[1..];
      ReadsTail(toks, groups, s, taken, a);
      LessThenWithout(s, taken, o.tok.tag);
      if OpensGroup(toks, groups, a.lo) {
        InstancesAreParsed(toks, groups, o.tok, o.insts, a.lo + 1, End(o));
      }
      ReadingIsParse(toks, groups, s, taken + {o.tok.tag}, Span(End(o), a.hi, rest));
      assert [o] + rest == a.own;
      ItemsCons(o, rest, groups.Keys);
      OwnItemsIs(o, groups.Keys);
      ParseUnfolds(toks, groups, a.lo, Less(s, taken));
    }
  }

  lemma {:induction false} InstancesAreParsed<T>(toks: seq<Token<T>>, groups: Groups<T>, counter: Token<T>,
      insts: seq<Span<T>>, pos: nat, hi: nat)
    requires pos <= |toks| && counter.tag in groups && Adjacent(insts, pos, hi)
    requires forall i <- insts :: i.own != [] && Reads(toks, groups, Some(groups[counter.tag]), {}, i)
    requires hi == |toks| || (hi < |toks| && toks[hi].tag !in groups[counter.tag])
    ensures ParseInstances(toks, groups, counter, pos) == Parsed(InstItems(counter, insts, groups.Keys), hi)
    decreases |toks| - pos, 1
  {
    hide Reads, Parse, ItemsOf;
    if insts != [] {
      var first := insts[0];
      assert first in insts;
      ReadsTail(toks, groups, Some(groups[counter.tag]), {}, first);
      ReadsBounds(toks, groups, Some(groups[counter.tag]), {}, first);
      assert groups[counter.tag] - {} == groups[counter.tag];
      ReadingIsParse(toks, groups, Some(groups[counter.tag]), {}, first);
      InstancesAreParsed(toks, groups, counter, insts[1..], first.hi, hi);
    }
  }

  lemma {:induction false} ReadsBounds<T>(toks: seq<Token<T>>, groups: Groups<T>, s: Option<set<T>>, taken: set<T>,
      a: Span<T>)
    requires Reads(toks, groups, s, taken, a)
    ensures a.lo <= a.hi <= |toks| && (a.own != [] ==> a.lo < a.hi)
  {
    if a.own != [] {
      ReadsTail(toks, groups, s, taken, a);
    }
  }

  // ---- Main results

  /** The division of the tokens from `pos` on, for a group with the members `s` or for the whole message, is
      the items and the end of a right reading; there is one, and every right reading gives the same. */
  lemma {:induction false} DivisionIsRight<T>(toks: seq<Token<T>>, groups: Groups<T>, pos: nat, s: Option<set<T>>)
    requires pos <= |toks|
    ensures exists a :: Reads(toks, groups, s, {}, a) && a.lo == pos
    ensures forall a :: Reads(toks, groups, s, {}, a) && a.lo == pos ==>
              Parse(toks, groups, pos, s) == Parsed(ItemsOf(a.own, groups.Keys), a.hi)
  {
    hide Reads, Parse, ItemsOf;
    assert Less(s, {}) == s by {
      if s.Some? {
        assert s.value - {} == s.value;
      }
    }
    var a := ParseReads(toks, groups, pos, s, {});
    forall a | Reads(toks, groups, s, {}, a) && a.lo == pos
      ensures Parse(toks, groups, pos, s) == Parsed(ItemsOf(a.own, groups.Keys), a.hi)
    {
      ReadingIsParse(toks, groups, s, {}, a);
    }
  }

  /** An instance of a group without inner counters is the longest stretch of members with different tags. */
  lemma {:induction false} FlatInstance<T>(toks: seq<Token<T>>, groups: Groups<T>, pos: nat, s: set<T>)
    requires pos <= |toks| && forall t <- s :: t !in groups
    ensures var r := Parse(toks, groups, pos, Some(s));
            && (forall p :: pos <= p < r.next ==> toks[p].tag in s)
            && (forall p, q :: pos <= p < q < r.next ==> toks[p].tag != toks[q].tag)
            && (r.next == |toks| || toks[r.next].tag !in s
                || exists p :: pos <= p < r.next && toks[p].tag == toks[r.next].tag)
            && |r.items| == r.next - pos && forall i :: 0 <= i < |r.items| ==> r.items[i] == Leaf(toks[pos + i])
  {
    hide Reads, Parse;
    assert s - {} == s;
    var a := ParseReads(toks, groups, pos, Some(s), {});
    FlatReading(toks, groups, s, {}, a);
  }

  lemma {:induction false} FlatReading<T>(toks: seq<Token<T>>, groups: Groups<T>, s: set<T>, taken: set<T>, a: Span<T>)
    requires Reads(toks, groups, Some(s), taken, a) && forall t <- s :: t !in groups
    ensures a.lo <= a.hi <= |toks|
    ensures forall p :: a.lo <= p < a.hi ==> toks[p].tag in s && toks[p].tag !in taken
    ensures forall p, q :: a.lo <= p < q < a.hi ==> toks[p].tag != toks[q].tag
    ensures a.hi == |toks| || toks[a.hi].tag !in s || toks[a.hi].tag in taken
            || exists p :: a.lo <= p < a.hi && toks[p].tag == toks[a.hi].tag
    ensures var items := ItemsOf(a.own, groups.Keys);
            |items| == a.hi - a.lo && forall i :: 0 <= i < |items| ==> items[i] == Leaf(toks[a.lo + i])
    decreases |a.own|
  {
    hide Reads;
    ReadsBounds(toks, groups, Some(s), taken, a);
    if a.own == [] {
      ReadingEnds(toks, groups, Some(s), taken, a);
    } else {
      var o := a.own[0];
      ReadsTail(toks, groups, Some(s), taken, a);
      FlatReading(toks, groups, s, taken + {o.tok.tag}, Span(End(o), a.hi, a.own[1..]));
    }
  }

  /** A counter that can be taken and that a member of its group follows opens an instance. */
  lemma {:induction false} CounterOpensInstance<T>(toks: seq<Token<T>>, groups: Groups<T>, pos: nat, s: Option<set<T>>)
    requires OpensGroup(toks, groups, pos) && (s.Some? ==> toks[pos].tag in s.value)
    ensures var items := Parse(toks, groups, pos, s).items; items != [] && items[0].Inst? && items[0].tok == toks[pos]
  {
    StartIsOpening(toks, groups, pos);
    var insts := ParseInstances(toks, groups, toks[pos], pos + 1);
    assert insts.items != [] && insts.items[0].Inst? && insts.items[0].tok == toks[pos];
  }
}
