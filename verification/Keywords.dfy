/** scan_keyword: matching the input against several keywords at once, with one status byte for each
    keyword and two counters, against its meaning: the longest possible match. */
module Keywords {
  import opened Wrappers

  function ToUpper(c: char): char {
    if 'a' <= c <= 'z' then c - 'a' + 'A' else c
  }

  /** Two characters are the same but for the case of a letter. */
  predicate SameLetter(c: char, d: char) {
    c == d || ('a' <= c <= 'z' && d as int == c as int - 32) || ('a' <= d <= 'z' && c as int == d as int - 32)
  }

  lemma {:induction false} UpperIgnoresCase(c: char, d: char)
    ensures ToUpper(c) == ToUpper(d) <==> SameLetter(c, d)
    ensures SameLetter(c, ToUpper(c)) && !('a' <= ToUpper(c) <= 'z')
  {
  }

  datatype Status = DoesntMatch | MightMatch | DoesMatch

  // ---- What a scan should find

  /** The first `n` characters of the keyword are the first `n` of the input, ignoring case. */
  predicate PrefixMatches(keyword: string, input: string, n: nat) {
    n <= |keyword| && n <= |input| && forall i :: 0 <= i < n ==> ToUpper(keyword[i]) == ToUpper(input[i])
  }

  predicate SomePrefix(keywords: seq<string>, input: string, n: nat) {
    exists k :: 0 <= k < |keywords| && PrefixMatches(keywords[k], input, n)
  }

  /** Some keyword begins with the first `n` characters of the input and goes on. */
  predicate SomeLonger(keywords: seq<string>, input: string, n: nat) {
    exists k :: 0 <= k < |keywords| && PrefixMatches(keywords[k], input, n) && n < |keywords[k]|
  }

  predicate IsMatch(keyword: string, input: string, n: nat) {
    n == |keyword| && PrefixMatches(keyword, input, n)
  }

  // ---- The input stream

  class InputStream {
    const data: string
    var pos: nat
    var eof: bool
    var failed: bool

    constructor (data: string)
      ensures this.data == data && pos == 0 && !eof && !failed
    {
      this.data := data;
      pos, eof, failed := 0, false, false;
    }

    predicate Valid()
      reads this
    {
      pos <= |data|
    }

    function Rest(): string
      reads this
      requires Valid()
    {
      data[pos..]
    }

    predicate Good()
      reads this
    {
      !eof && !failed
    }

    /** peek(): no character at the end of the input, and a failure on a stream that is not good. */
    method Peek() returns (c: Option<char>)
      requires Valid()
      modifies this`eof, this`failed
      ensures Valid()
      ensures c == if old(Good()) && Rest() != "" then Some(Rest()[0]) else None
      ensures eof == (old(eof) || (old(Good()) && Rest() == ""))
      ensures failed == (old(failed) || !old(Good()))
    {
      if !Good() {
        failed := true;
        return None;
      }
      if pos == |data| {
        eof := true;
        return None;
      }
      return Some(data[pos]);
    }

    method Get()
      requires Valid() && Good() && Rest() != ""
      modifies this`pos
      ensures Valid() && pos == old(pos) + 1
    {
      pos := pos + 1;
    }
  }

  // ---- The status array

  function Count(st: seq<Status>, s: Status): nat {
    if st == [] then 0 else Count(st[1..], s) + if st[0] == s then 1 else 0
  }

  lemma {:induction false} CountUpdate(st: seq<Status>, i: nat, s': Status, s: Status)
    requires i < |st|
    ensures Count(st[i := s'], s) == Count(st, s) - (if st[i] == s then 1 else 0) + (if s' == s then 1 else 0)
  {
    if i > 0 {
      CountUpdate(st[1..], i - 1, s', s);
      assert st[i := s'][1..] == st[1..][i - 1 := s'];
    }
  }

  lemma {:induction false} CountZero(st: seq<Status>, s: Status)
    ensures Count(st, s) == 0 <==> forall i :: 0 <= i < |st| ==> st[i] != s
  {
    if st != [] {
      CountZero(st[1..], s);
      assert forall i :: 0 <= i < |st[1..]| ==> st[1..][i] == st[i + 1];
    }
  }

  lemma {:induction false} CountAll(st: seq<Status>, s: Status)
    requires forall i :: 0 <= i < |st| ==> st[i] == s
    ensures Count(st, s) == |st|
  {
    if st != [] {
      CountAll(st[1..], s);
    }
  }

  /** After `n` consumed characters: who might still match, and who does. */
  predicate StatusAt(keyword: string, input: string, n: nat, s: Status) {
    s == if PrefixMatches(keyword, input, n) then (if |keyword| == n then DoesMatch else MightMatch) else DoesntMatch
  }

  predicate StatusesAt(keywords: seq<string>, input: string, n: nat, st: seq<Status>) {
    |st| == |keywords| && forall k :: 0 <= k < |st| ==> StatusAt(keywords[k], input, n, st[k])
  }

  lemma {:induction false} TwoLive(st: seq<Status>, i: nat, j: nat)
    requires i < |st| && j < |st| && i != j && st[i] != DoesntMatch && st[j] != DoesntMatch
    ensures Count(st, MightMatch) + Count(st, DoesMatch) > 1
  {
    CountUpdate(st, i, DoesntMatch, MightMatch);
    CountUpdate(st, i, DoesntMatch, DoesMatch);
    var rest := st[i := DoesntMatch];
    CountUpdate(rest, j, DoesntMatch, MightMatch);
    CountUpdate(rest, j, DoesntMatch, DoesMatch);
  }

  /** What the next character makes of one status */
  function Tested(keyword: string, indx: nat, c: char, s: Status): Status
    requires s == MightMatch ==> indx < |keyword|
  {
    if s != MightMatch then s
    else if c != ToUpper(keyword[indx]) then DoesntMatch
    else if |keyword| == indx + 1 then DoesMatch
    else MightMatch
  }

  predicate Consumes(keyword: string, indx: nat, c: char, s: Status) {
    s == MightMatch && indx < |keyword| && c == ToUpper(keyword[indx])
  }

  // ---- scan_keyword

  method Initialize(keywords: seq<string>) returns (status: array<Status>, nMight: nat, nDoes: nat)
    ensures fresh(status) && status.Length == |keywords|
    ensures forall k :: 0 <= k < |keywords| ==> status[k] == if keywords[k] == "" then DoesMatch else MightMatch
    ensures nMight == Count(status[..], MightMatch) && nDoes == Count(status[..], DoesMatch)
  {
    status := new Status[|keywords|](_ => MightMatch);
    nMight, nDoes := |keywords|, 0;
    CountAll(status[..], MightMatch);
    CountZero(status[..], DoesMatch);
    for k := 0 to |keywords|
      invariant forall i :: 0 <= i < k ==> status[i] == if keywords[i] == "" then DoesMatch else MightMatch
      invariant forall i :: k <= i < |keywords| ==> status[i] == MightMatch
      invariant nMight == Count(status[..], MightMatch) && nDoes == Count(status[..], DoesMatch)
    {
      if keywords[k] == "" {
        CountUpdate(status[..], k, DoesMatch, MightMatch);
        CountUpdate(status[..], k, DoesMatch, DoesMatch);
        ghost var before := status[..];
        status[k] := DoesMatch;
        assert status[..] == before[k := DoesMatch];
        nMight, nDoes := nMight - 1, nDoes + 1;
      }
    }
  }

  /** Test every keyword that might match against the next character. */
  method TestKeywords(status: array<Status>, keywords: seq<string>, indx: nat, c: char, nMight0: nat, nDoes0: nat)
    returns (consume: bool, nMight: nat, nDoes: nat)
    requires status.Length == |keywords|
    requires forall k :: 0 <= k < |keywords| ==> status[k] == MightMatch ==> indx < |keywords[k]|
    requires nMight0 == Count(status[..], MightMatch) && nDoes0 == Count(status[..], DoesMatch)
    modifies status
    ensures forall k :: 0 <= k < |keywords| ==> status[k] == Tested(keywords[k], indx, c, old(status[k]))
    ensures consume <==> exists k :: 0 <= k < |keywords| && Consumes(keywords[k], indx, c, old(status[k]))
    ensures nMight == Count(status[..], MightMatch) && nDoes == Count(status[..], DoesMatch)
  {
    consume, nMight, nDoes := false, nMight0, nDoes0;
    for k := 0 to |keywords|
      invariant forall i :: 0 <= i < k ==> status[i] == Tested(keywords[i], indx, c, old(status[i]))
      invariant forall i :: k <= i < |keywords| ==> status[i] == old(status[i])
      invariant consume <==> exists i :: 0 <= i < k && Consumes(keywords[i], indx, c, old(status[i]))
      invariant nMight == Count(status[..], MightMatch) && nDoes == Count(status[..], DoesMatch)
    {
      if status[k] == MightMatch {
        ghost var before := status[..];
        var s := Tested(keywords[k], indx, c, MightMatch);
        CountUpdate(before, k, s, MightMatch);
        CountUpdate(before, k, s, DoesMatch);
        if c == ToUpper(keywords[k][indx]) {
          consume := true;
          if |keywords[k]| == indx + 1 {
            status[k] := DoesMatch;
            nMight, nDoes := nMight - 1, nDoes + 1;
          }
        } else {
          status[k] := DoesntMatch;
          nMight := nMight - 1;
        }
        assert status[..] == before[k := s];
      }
    }
  }

  /** After a consumed character, keywords that matched on an earlier one no longer match. */
  method DropStale(status: array<Status>, keywords: seq<string>, indx: nat, nMight: nat, nDoes0: nat)
    returns (nDoes: nat)
    requires status.Length == |keywords|
    requires nMight == Count(status[..], MightMatch) && nDoes0 == Count(status[..], DoesMatch)
    modifies status
    ensures forall k :: 0 <= k < |keywords| ==>
              status[k] == if old(status[k]) == DoesMatch && |keywords[k]| != indx + 1 then DoesntMatch
                  else old(status[k])
    ensures nMight == Count(status[..], MightMatch) && nDoes == Count(status[..], DoesMatch)
  {
    nDoes := nDoes0;
    for k := 0 to |keywords|
      invariant forall i :: 0 <= i < k ==>
                  status[i] == if old(status[i]) == DoesMatch && |keywords[i]| != indx + 1 then DoesntMatch
                      else old(status[i])
      invariant forall i :: k <= i < |keywords| ==> status[i] == old(status[i])
      invariant nMight == Count(status[..], MightMatch) && nDoes == Count(status[..], DoesMatch)
    {
      if status[k] == DoesMatch && |keywords[k]| != indx + 1 {
        ghost var before := status[..];
        CountUpdate(before, k, DoesntMatch, MightMatch);
        CountUpdate(before, k, DoesntMatch, DoesMatch);
        status[k] := DoesntMatch;
        assert status[..] == before[k := DoesntMatch];
        nDoes := nDoes - 1;
      }
    }
  }

  lemma {:induction false} MatchGrows(keyword: string, input: string, n: nat)
    requires n < |input|
    ensures PrefixMatches(keyword, input, n + 1) <==>
            PrefixMatches(keyword, input, n) && n < |keyword| && ToUpper(keyword[n]) == ToUpper(input[n])
  {
  }

  lemma {:induction false} MatchShrinks(keyword: string, input: string, n: nat, m: nat)
    requires n <= m && PrefixMatches(keyword, input, m)
    ensures PrefixMatches(keyword, input, n)
  {
  }

  /** The statuses and counters between two iterations. Either they describe the `n` characters
      consumed so far, or no keyword can go on and the scan is about to stop. */
  predicate Settled(keywords: seq<string>, input: string, n: nat, st: seq<Status>, nMight: nat, nDoes: nat) {
    && |st| == |keywords| && n <= |input|
    && nMight == Count(st, MightMatch) && nDoes == Count(st, DoesMatch)
    && (forall k :: 0 <= k < |st| ==> (st[k] == DoesMatch <==> IsMatch(keywords[k], input, n)))
    && (n == 0 || SomePrefix(keywords, input, n))
    && (nMight == 0 ==> !SomePrefix(keywords, input, n + 1))
    && (nMight == 0 && n == |input| ==> !SomeLonger(keywords, input, n))
    && (nMight > 0 ==> StatusesAt(keywords, input, n, st))
  }

  lemma {:induction false} StatusesSettle(keywords: seq<string>, input: string, n: nat, st: seq<Status>, nMight: nat,
          nDoes: nat)
    requires n <= |input| && StatusesAt(keywords, input, n, st)
    requires nMight == Count(st, MightMatch) && nDoes == Count(st, DoesMatch)
    requires n == 0 || SomePrefix(keywords, input, n)
    ensures Settled(keywords, input, n, st, nMight, nDoes)
  {
    CountZero(st, MightMatch);
    if nMight == 0 && SomePrefix(keywords, input, n + 1) {
      var k :| 0 <= k < |keywords| && PrefixMatches(keywords[k], input, n + 1);
      MatchShrinks(keywords[k], input, n, n + 1);
    }
  }

  /** One test of all statuses */
  predicate AllTested(keywords: seq<string>, indx: nat, c: char, before: seq<Status>, tested: seq<Status>) {
    |before| == |tested| == |keywords|
    && (forall k :: 0 <= k < |keywords| ==> before[k] == MightMatch ==> indx < |keywords[k]|)
    && (forall k :: 0 <= k < |keywords| ==> tested[k] == Tested(keywords[k], indx, c, before[k]))
  }

  lemma {:induction false} TestedMeaning(keywords: seq<string>, input: string, n: nat, before: seq<Status>,
          tested: seq<Status>, k: nat)
    requires n < |input| && k < |keywords| && StatusesAt(keywords, input, n, before)
    requires AllTested(keywords, n, ToUpper(input[n]), before, tested)
    ensures Consumes(keywords[k], n, ToUpper(input[n]), before[k]) <==> PrefixMatches(keywords[k], input, n + 1)
    ensures tested[k] == MightMatch <==> PrefixMatches(keywords[k], input, n + 1) && n + 1 < |keywords[k]|
    ensures tested[k] == DoesMatch <==> IsMatch(keywords[k], input, n + 1) || IsMatch(keywords[k], input, n)
  {
    MatchGrows(keywords[k], input, n);
    assert StatusAt(keywords[k], input, n, before[k]);
  }

  /** With a single live status after a consumed character there is nothing to drop. */
  lemma {:induction false} NothingStale(keywords: seq<string>, input: string, n: nat, before: seq<Status>,
          tested: seq<Status>)
    requires n < |input| && StatusesAt(keywords, input, n, before)
    requires AllTested(keywords, n, ToUpper(input[n]), before, tested)
    requires SomePrefix(keywords, input, n + 1)
    requires Count(tested, MightMatch) + Count(tested, DoesMatch) <= 1
    ensures forall k :: 0 <= k < |keywords| ==> tested[k] == DoesMatch ==> |keywords[k]| == n + 1
  {
    hide PrefixMatches;
    var l :| 0 <= l < |keywords| && PrefixMatches(keywords[l], input, n + 1);
    TestedMeaning(keywords, input, n, before, tested, l);
    assert tested[l] != DoesntMatch by {
      LongEnough(keywords[l], input, n + 1);
    }
    forall k | 0 <= k < |keywords| && tested[k] == DoesMatch
      ensures |keywords[k]| == n + 1
    {
      if k != l {
        TwoLive(tested, k, l);
      } else {
        LongEnough(keywords[l], input, n + 1);
        TestedMeaning(keywords, input, n, before, tested, k);
      }
    }
  }

  lemma {:induction false} LongEnough(keyword: string, input: string, n: nat)
    requires PrefixMatches(keyword, input, n)
    ensures n <= |keyword|
  {
  }

  lemma {:induction false} ConsumedStatuses(keywords: seq<string>, input: string, n: nat, before: seq<Status>,
          tested: seq<Status>, after: seq<Status>)
    requires n < |input| && StatusesAt(keywords, input, n, before)
    requires AllTested(keywords, n, ToUpper(input[n]), before, tested)
    requires |after| == |tested|
    requires forall k :: 0 <= k < |tested| ==>
               after[k] == if tested[k] == DoesMatch && |keywords[k]| != n + 1 then DoesntMatch else tested[k]
    ensures StatusesAt(keywords, input, n + 1, after)
  {
    forall k | 0 <= k < |keywords|
      ensures StatusAt(keywords[k], input, n + 1, after[k])
    {
      TestedMeaning(keywords, input, n, before, tested, k);
    }
  }

  lemma {:induction false} UnconsumedStatuses(keywords: seq<string>, input: string, n: nat, before: seq<Status>,
          tested: seq<Status>, nMight: nat, nDoes: nat)
    requires n < |input| && StatusesAt(keywords, input, n, before)
    requires n == 0 || SomePrefix(keywords, input, n)
    requires AllTested(keywords, n, ToUpper(input[n]), before, tested)
    requires nMight == Count(tested, MightMatch) && nDoes == Count(tested, DoesMatch)
    requires !SomePrefix(keywords, input, n + 1)
    ensures nMight == 0 && Settled(keywords, input, n, tested, nMight, nDoes)
  {
    hide PrefixMatches;
    forall k | 0 <= k < |keywords|
      ensures tested[k] != MightMatch && (tested[k] == DoesMatch <==> IsMatch(keywords[k], input, n))
    {
      TestedMeaning(keywords, input, n, before, tested, k);
    }
    CountZero(tested, MightMatch);
  }

  lemma {:induction false} ConsumesIsPrefix(keywords: seq<string>, input: string, n: nat, before: seq<Status>,
          tested: seq<Status>)
    requires n < |input| && StatusesAt(keywords, input, n, before)
    requires AllTested(keywords, n, ToUpper(input[n]), before, tested)
    ensures (exists k :: 0 <= k < |keywords| && Consumes(keywords[k], n, ToUpper(input[n]), before[k]))
            <==> SomePrefix(keywords, input, n + 1)
  {
    hide PrefixMatches, Consumes;
    forall k | 0 <= k < |keywords|
      ensures Consumes(keywords[k], n, ToUpper(input[n]), before[k]) <==> PrefixMatches(keywords[k], input, n + 1)
    {
      TestedMeaning(keywords, input, n, before, tested, k);
    }
  }

  /** One iteration on the statuses: test against the next character and, when it is consumed, drop
      the keywords that are too short by now. */
  method Iterate(status: array<Status>, keywords: seq<string>, ghost input: string, indx: nat, c: char, nMight0: nat,
          nDoes0: nat)
    returns (consume: bool, nMight: nat, nDoes: nat)
    requires nMight0 > 0 && Settled(keywords, input, indx, status[..], nMight0, nDoes0)
    requires indx < |input| && c == ToUpper(input[indx])
    modifies status
    ensures consume <==> SomePrefix(keywords, input, indx + 1)
    ensures Settled(keywords, input, if consume then indx + 1 else indx, status[..], nMight, nDoes)
    ensures !consume ==> nMight == 0
  {
    hide Settled, StatusesAt, SomePrefix, PrefixMatches, Tested, Consumes, Count, ToUpper;
    ghost var before := status[..];
    MightIsLonger(keywords, input, indx, before, nMight0, nDoes0);
    consume, nMight, nDoes := TestKeywords(status, keywords, indx, c, nMight0, nDoes0);
    ghost var tested := status[..];
    assert AllTested(keywords, indx, c, before, tested);
    ConsumesIsPrefix(keywords, input, indx, before, tested);
    if consume {
      if nMight + nDoes > 1 {
        nDoes := DropStale(status, keywords, indx, nMight, nDoes);
      } else {
        NothingStale(keywords, input, indx, before, tested);
      }
      ConsumedStatuses(keywords, input, indx, before, tested, status[..]);
      StatusesSettle(keywords, input, indx + 1, status[..], nMight, nDoes);
    } else {
      UnconsumedStatuses(keywords, input, indx, before, tested, nMight, nDoes);
    }
  }

  /** While a keyword might match, the statuses describe the characters consumed so far. */
  lemma {:induction false} MightIsLonger(keywords: seq<string>, input: string, n: nat, st: seq<Status>, nMight: nat,
          nDoes: nat)
    requires Settled(keywords, input, n, st, nMight, nDoes) && nMight > 0
    ensures StatusesAt(keywords, input, n, st) && (n == 0 || SomePrefix(keywords, input, n))
    ensures nMight == Count(st, MightMatch) && nDoes == Count(st, DoesMatch)
    ensures |st| == |keywords| && forall k :: 0 <= k < |keywords| ==> st[k] == MightMatch ==> n < |keywords[k]|
  {
    forall k | 0 <= k < |keywords| && st[k] == MightMatch
      ensures n < |keywords[k]|
    {
      assert StatusAt(keywords[k], input, n, st[k]);
    }
  }

  /** Maximal munch: `n` characters is the most that agrees with the beginning of some keyword. */
  ghost predicate IsLongest(keywords: seq<string>, input: string, n: nat) {
    (n == 0 || SomePrefix(keywords, input, n)) && forall m: nat :: SomePrefix(keywords, input, m) ==> m <= n
  }

  /** `r` is the first keyword that is matched in full by `n` characters, or the end of the list. */
  predicate IsFirstMatch(keywords: seq<string>, input: string, n: nat, r: nat) {
    r <= |keywords|
    && (forall k :: 0 <= k < r ==> !IsMatch(keywords[k], input, n))
    && (r < |keywords| ==> IsMatch(keywords[r], input, n))
  }

  lemma {:induction false} LongestWhenSettled(keywords: seq<string>, input: string, n: nat, st: seq<Status>,
          nMight: nat, nDoes: nat)
    requires Settled(keywords, input, n, st, nMight, nDoes) && (nMight == 0 || n == |input|)
    ensures IsLongest(keywords, input, n)
  {
  }

  method FirstMatching(status: array<Status>) returns (r: nat)
    ensures r <= status.Length && forall k :: 0 <= k < r ==> status[k] != DoesMatch
    ensures r < status.Length ==> status[r] == DoesMatch
  {
    r := 0;
    while r < status.Length && status[r] != DoesMatch
      invariant r <= status.Length && forall k :: 0 <= k < r ==> status[k] != DoesMatch
    {
      r := r + 1;
    }
  }

  /** Consumes the longest prefix of the input that begins some keyword, and returns the first
      keyword that this prefix spells out; the stream fails when there is none. A stream that is not
      good is not read: only an empty keyword can match. The end of the input is met exactly when nothing
      follows and some keyword would go on. */
  method ScanKeyword(stream: InputStream, keywords: seq<string>) returns (r: nat)
    requires stream.Valid()
    modifies stream
    ensures stream.Valid() && old(stream.pos) <= stream.pos
    ensures old(stream.Good()) ==> IsLongest(keywords, old(stream.Rest()), stream.pos - old(stream.pos))
    ensures !old(stream.Good()) ==> stream.pos == old(stream.pos)
    ensures IsFirstMatch(keywords, old(stream.Rest()), stream.pos - old(stream.pos), r)
    ensures stream.eof == (old(stream.eof) ||
              (old(stream.Good()) && stream.Rest() == ""
               && SomeLonger(keywords, old(stream.Rest()), stream.pos - old(stream.pos))))
    ensures stream.failed == (old(stream.failed) || r == |keywords|
              || (old(stream.eof) && SomeLonger(keywords, old(stream.Rest()), 0)))
  {
    hide SomeLonger, Settled, SomePrefix, PrefixMatches, IsLongest, IsMatch, Count, ToUpper;
    ghost var input := stream.Rest();
    var status, nMight, nDoes := Initialize(keywords);
    InitiallySettled(keywords, input, status[..], nMight, nDoes);
    var indx := 0;
    while !stream.failed && nMight > 0
      invariant stream.Valid() && old(stream.pos) <= stream.pos && stream.Rest() ==
          input[stream.pos - old(stream.pos)..]
      invariant stream.pos - old(stream.pos) <= |input|
      invariant stream.failed == old(stream.failed) && stream.eof == old(stream.eof)
      invariant Settled(keywords, input, stream.pos - old(stream.pos), status[..], nMight, nDoes)
      invariant nMight > 0 ==> indx == stream.pos - old(stream.pos)
      invariant !old(stream.Good()) ==>
                  stream.pos == old(stream.pos) && (nMight > 0 <==> SomeLonger(keywords, input, 0))
      decreases |stream.data| - stream.pos, nMight
    {
      MightGoesOn(keywords, input, stream.pos - old(stream.pos), status[..], nMight, nDoes);
      var ic := stream.Peek();
      if ic.None? {
        stream.eof := true;
        break;
      }
      var c := ToUpper(ic.value);
      var consume;
      consume, nMight, nDoes := Iterate(status, keywords, input, indx, c, nMight, nDoes);
      if consume {
        stream.Get();
      }
      indx := indx + 1;
    }
    ghost var n := stream.pos - old(stream.pos);
    NoMoreWhenSettled(keywords, input, n, status[..], nMight, nDoes);
    if old(stream.Good()) {
      LongestWhenSettled(keywords, input, n, status[..], nMight, nDoes);
    }
    MatchesWhenSettled(keywords, input, n, status[..], nMight, nDoes);
    r := FirstMatching(status);
    if r == |keywords| {
      stream.failed := true;
    }
  }

  lemma {:induction false} InitiallySettled(keywords: seq<string>, input: string, st: seq<Status>, nMight: nat,
          nDoes: nat)
    requires |st| == |keywords|
    requires forall k :: 0 <= k < |st| ==> st[k] == if keywords[k] == "" then DoesMatch else MightMatch
    requires nMight == Count(st, MightMatch) && nDoes == Count(st, DoesMatch)
    ensures Settled(keywords, input, 0, st, nMight, nDoes) && (nMight > 0 <==> SomeLonger(keywords, input, 0))
  {
    StatusesSettle(keywords, input, 0, st, nMight, nDoes);
    CountZero(st, MightMatch);
    if k :| 0 <= k < |st| && st[k] == MightMatch {
      assert PrefixMatches(keywords[k], input, 0);
    }
  }

  /** While a keyword might match, one goes on. */
  lemma {:induction false} MightGoesOn(keywords: seq<string>, input: string, n: nat, st: seq<Status>, nMight: nat,
      nDoes: nat)
    requires Settled(keywords, input, n, st, nMight, nDoes) && nMight > 0
    ensures SomeLonger(keywords, input, n)
  {
    MightIsLonger(keywords, input, n, st, nMight, nDoes);
    CountZero(st, MightMatch);
    var k :| 0 <= k < |st| && st[k] == MightMatch;
    assert StatusAt(keywords[k], input, n, st[k]);
  }

  lemma {:induction false} NoMoreWhenSettled(keywords: seq<string>, input: string, n: nat, st: seq<Status>,
      nMight: nat, nDoes: nat)
    requires Settled(keywords, input, n, st, nMight, nDoes)
    ensures nMight == 0 && n == |input| ==> !SomeLonger(keywords, input, n)
  {
  }

  lemma {:induction false} MatchesWhenSettled(keywords: seq<string>, input: string, n: nat, st: seq<Status>,
          nMight: nat, nDoes: nat)
    requires Settled(keywords, input, n, st, nMight, nDoes)
    ensures |st| == |keywords|
    ensures forall k :: 0 <= k < |st| ==> (st[k] == DoesMatch <==> IsMatch(keywords[k], input, n))
  {
  }
}
