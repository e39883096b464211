/** intclipper: the table that gives every accepted tag its own index, and the branchless clip in
    front of it. */
module TvpTable {
  import opened MachineInts

  function MinOf(tags: seq<int>): (m: int)
    requires tags != []
    ensures m in tags && forall t :: t in tags ==> m <= t
  {
    if |tags| == 1 then tags[0]
    else
      var m := MinOf(tags[1..]);
      assert forall t :: t in tags ==> t == tags[0] || t in tags[1..];
      if tags[0] < m then tags[0] else m
  }

  function MaxOf(tags: seq<int>): (m: int)
    requires tags != []
    ensures m in tags && forall t :: t in tags ==> t <= m
  {
    if |tags| == 1 then tags[0]
    else
      var m := MaxOf(tags[1..]);
      assert forall t :: t in tags ==> t == tags[0] || t in tags[1..];
      if tags[0] > m then tags[0] else m
  }

  /** What the compiler demands of a list of accepted tags: the bounds are template arguments of an
      unsigned type, and the table size is computed in int. */
  predicate Compiles(tags: seq<int>) {
    tags != [] && (forall t :: t in tags ==> 0 <= t <= INT_MAX) && MaxOf(tags) - MinOf(tags) + 2 <= INT_MAX
  }

  // ---- The index of a tag

  /** The number of different tags in a list */
  function Different(tags: seq<int>): nat {
    if tags == [] then 0
    else
      var init := tags[..|tags| - 1];
      Different(init) + if tags[|tags| - 1] in init then 0 else 1
  }

  /** 0 for a tag that is not in the list; otherwise one more than the number of different tags before
      its first occurrence. */
  function IndexOf(tags: seq<int>, tag: int): nat {
    if tags == [] then 0
    else
      var init := tags[..|tags| - 1];
      if tag in init then IndexOf(init, tag)
      else if tags[|tags| - 1] == tag then Different(init) + 1
      else 0
  }

  lemma {:induction false} IndexBounds(tags: seq<int>, tag: int)
    ensures 0 < IndexOf(tags, tag) <==> tag in tags
    ensures IndexOf(tags, tag) <= Different(tags) <= |tags|
  {
    if tags != [] {
      IndexBounds(tags[..|tags| - 1], tag);
    }
  }

  /** The index is nonzero exactly on the listed tags, at most the number of entries, and no two
      different tags share one. */
  lemma {:induction false} IndexIsPerfect(tags: seq<int>, a: int, b: int)
    ensures 0 < IndexOf(tags, a) <==> a in tags
    ensures IndexOf(tags, a) <= |tags|
    ensures a in tags && b in tags && IndexOf(tags, a) == IndexOf(tags, b) ==> a == b
  {
    IndexBounds(tags, a);
    IndexBounds(tags, b);
    if a in tags && b in tags {
      var init := tags[..|tags| - 1];
      IndexIsPerfect(init, a, b);
      IndexBounds(init, a);
      IndexBounds(init, b);
    }
  }

  lemma {:induction false} DifferentIsCardinality(tags: seq<int>)
    ensures Different(tags) == |set t | t in tags|
  {
    if tags != [] {
      var init, last := tags[..|tags| - 1], tags[|tags| - 1];
      DifferentIsCardinality(init);
      var before, after := set t | t in init, set t | t in tags;
      assert forall t :: t in tags <==> t in init || t == last;
      assert after == before + {last};
      if last in init {
        assert after == before;
      } else {
        assert last !in before;
      }
    }
  }

  /** The index of a tag is the number of different tags in front of its first occurrence, and one more. */
  lemma {:induction false} IndexCounts(tags: seq<int>, i: nat)
    requires i < |tags| && tags[i] !in tags[..i]
    ensures IndexOf(tags, tags[i]) == |set t | t in tags[..i]| + 1
  {
    var init := tags[..|tags| - 1];
    if i == |tags| - 1 {
      DifferentIsCardinality(init);
    } else {
      assert init[..i] == tags[..i] && init[i] == tags[i];
      IndexCounts(init, i);
    }
  }

  // ---- MapTable

  function MapSize(tags: seq<int>): nat
    requires Compiles(tags)
  {
    2 + MaxOf(tags) - MinOf(tags)
  }

  /** Entry `pos` belongs to the tag `pos + TAG_MIN - 1`; entry 0 to no tag. */
  function Table(tags: seq<int>): seq<nat>
    requires Compiles(tags)
  {
    TableFor(tags, MinOf(tags), MapSize(tags))
  }

  function TableFor(tags: seq<int>, min: int, n: nat): (tb: seq<nat>)
    ensures |tb| == n && forall p :: 0 <= p < n ==> tb[p] == IndexOf(tags, p + min - 1)
  {
    if n == 0 then [] else TableFor(tags, min, n - 1) + [IndexOf(tags, n - 1 + min - 1)]
  }

  lemma {:induction false} IndexOfNothing(tags: seq<int>)
    ensures Different(tags[..0]) == 0 && forall t :: IndexOf(tags[..0], t) == 0
  {
  }

  /** One more entry of the list gives an index to its own tag, if that tag is new. */
  lemma {:induction false} IndexStep(tags: seq<int>, j: nat, t: int)
    requires j < |tags|
    ensures IndexOf(tags[..j + 1], t) ==
            if t == tags[j] && IndexOf(tags[..j], t) == 0 then Different(tags[..j]) + 1 else IndexOf(tags[..j], t)
    ensures Different(tags[..j + 1]) == Different(tags[..j]) + if IndexOf(tags[..j], tags[j]) == 0 then 1 else 0
  {
    assert tags[..j + 1][..j] == tags[..j];
    IndexBounds(tags[..j], t);
    IndexBounds(tags[..j], tags[j]);
  }

  /** ... so the table changes at one entry at most. */
  lemma {:induction false} TableStep(tags: seq<int>, j: nat, min: int, n: nat)
    requires j < |tags| && 0 <= tags[j] - (min - 1) < n
    ensures var tb, pos := TableFor(tags[..j], min, n), tags[j] - (min - 1);
            TableFor(tags[..j + 1], min, n) == if tb[pos] == 0 then tb[pos := Different(tags[..j]) + 1] else tb
    ensures Different(tags[..j + 1]) ==
            Different(tags[..j]) + if TableFor(tags[..j], min, n)[tags[j] - (min - 1)] == 0 then 1 else 0
  {
    hide IndexOf, Different, TableFor;
    IndexStep(tags, j, tags[j]);
    var before, after, pos := TableFor(tags[..j], min, n), TableFor(tags[..j + 1], min, n), tags[j] - (min - 1);
    forall p | 0 <= p < n
      ensures after[p] == if p == pos && before[p] == 0 then Different(tags[..j]) + 1 else before[p]
    {
      IndexStep(tags, j, p + min - 1);
    }
  }

  lemma {:induction false} EmptyTable(tags: seq<int>, min: int, n: nat, tb: seq<nat>)
    requires |tb| == n && forall p :: 0 <= p < n ==> tb[p] == 0
    ensures tb == TableFor(tags[..0], min, n) && Different(tags[..0]) == 0
  {
    IndexOfNothing(tags);
  }

  method MapTable(tags: seq<int>) returns (tb: array<nat>)
    requires Compiles(tags)
    ensures fresh(tb) && tb[..] == Table(tags)
  {
    hide IndexOf, Different, TableFor, MinOf, MaxOf;
    var min := MinOf(tags);
    tb := new nat[MapSize(tags)];
    for i := 0 to tb.Length
      invariant forall p :: 0 <= p < i ==> tb[p] == 0
    {
      tb[i] := 0;
    }
    EmptyTable(tags, min, tb.Length, tb[..]);
    var position := 1;
    for j := 0 to |tags|
      invariant position == Different(tags[..j]) + 1
      invariant tb[..] == TableFor(tags[..j], min, tb.Length)
    {
      var tag := tags[j];
      assert tag in tags;
      var pos := tag - (min - 1);
      TableStep(tags, j, min, tb.Length);
      if tb[pos] == 0 {
        tb[pos] := position;
        position := position + 1;
      }
    }
    assert tags[..|tags|] == tags;
  }

  // ---- clipTag and mapTag2Index

  /** Differences that leave the range of int are taken to wrap around. */
  function ClipTag(tags: seq<int>, tag: int32): int
    requires Compiles(tags)
  {
    var t0 := ToInt(tag - (MinOf(tags) - 1));
    var t1 := t0 * if t0 > 0 then 1 else 0;
    t1 * if t1 < MapSize(tags) then 1 else 0
  }

  /** The clip maps every tag between the bounds to its own entry and every other int to entry 0. */
  lemma {:induction false} ClipIsExact(tags: seq<int>, tag: int32)
    requires Compiles(tags)
    ensures ClipTag(tags, tag) == if MinOf(tags) <= tag <= MaxOf(tags) then tag - MinOf(tags) + 1 else 0
    ensures 0 <= ClipTag(tags, tag) < MapSize(tags)
  {
    var d := tag - (MinOf(tags) - 1);
    assert MinOf(tags) in tags && MaxOf(tags) in tags;
    assert ToInt(d) == if d < INT_MIN then d + 0x1_0000_0000 else if d > INT_MAX then d - 0x1_0000_0000 else d;
  }

  function MapTag2Index(tags: seq<int>, tag: int32): nat
    requires Compiles(tags)
  {
    ClipIsExact(tags, tag);
    Table(tags)[ClipTag(tags, tag)]
  }

  /** For every list of tags and every int, the clipped table lookup is the index of the tag. */
  lemma {:induction false} LookupIsIndex(tags: seq<int>, tag: int32)
    requires Compiles(tags)
    ensures MapTag2Index(tags, tag) == IndexOf(tags, tag)
  {
    hide ClipTag;
    ClipIsExact(tags, tag);
    IndexBounds(tags, tag);
    IndexBounds(tags, MinOf(tags) - 1);
  }

  // ---- numeric_t

  /** '0' to '9' */
  const DIGITS: seq<int> := seq(10, i => i + 48)

  predicate IsDigit(c: char) {
    '0' <= c <= '9'
  }

  lemma {:induction false} DigitsCompile()
    ensures Compiles(DIGITS)
    ensures forall c: int :: c in DIGITS <==> 48 <= c <= 57
  {
    forall c: int | 48 <= c <= 57
      ensures c in DIGITS
    {
      assert DIGITS[c - 48] == c;
    }
  }

  /** The check that a character is a digit: between 1 and 10 for digits, 0 for others */
  lemma {:induction false} DigitIndex(c: char)
    ensures Compiles(DIGITS)
    ensures 0 < MapTag2Index(DIGITS, c as int) <==> IsDigit(c)
    ensures MapTag2Index(DIGITS, c as int) <= 10
  {
    hide MapTag2Index;
    DigitsCompile();
    LookupIsIndex(DIGITS, c as int);
    IndexBounds(DIGITS, c as int);
  }
}
