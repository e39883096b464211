/** tvp_writer::write, and what a reader gets back from a written message. */
module TvpWriter {
  import opened MachineInts
  import opened Wrappers
  import opened TvpTable
  import opened TvpScanner
  import opened TvpReader

  datatype Pair = Pair(tag: string, val: string)

  const SOH: char := 1 as char

  function WrittenPair(sep: char, p: Pair): string {
    p.tag + "=" + p.val + [sep]
  }

  function Written(sep: char, pairs: seq<Pair>): string {
    if pairs == [] then "" else WrittenPair(sep, pairs[0]) + Written(sep, pairs[1..])
  }

  /** The message starts with field 8, the version of the protocol. */
  method Write(sep: char, fix8: string, tvp: seq<Pair>) returns (s: string)
    ensures s == Written(sep, [Pair("8", fix8)] + tvp)
  {
    s := "8=" + fix8 + [sep];
    assert "8=" == "8" + "=";
    assert [Pair("8", fix8)] + tvp[..0] == [Pair("8", fix8)];
    assert Written(sep, [Pair("8", fix8)]) == s + Written(sep, []);
    for i := 0 to |tvp|
      invariant s == Written(sep, [Pair("8", fix8)] + tvp[..i])
    {
      WrittenSnoc(sep, [Pair("8", fix8)] + tvp[..i], tvp[i]);
      assert [Pair("8", fix8)] + tvp[..i + 1] == [Pair("8", fix8)] + tvp[..i] + [tvp[i]];
      s := s + tvp[i].tag + "=" + tvp[i].val + [sep];
    }
    assert tvp[..|tvp|] == tvp;
  }

  lemma {:induction false} WrittenSnoc(sep: char, pairs: seq<Pair>, p: Pair)
    ensures Written(sep, pairs + [p]) == Written(sep, pairs) + WrittenPair(sep, p)
  {
    if pairs == [] {
      assert pairs + [p] == [p];
    } else {
      hide WrittenPair;
      WrittenSnoc(sep, pairs[1..], p);
      assert (pairs + [p])[1..] == pairs[1..] + [p] && (pairs + [p])[0] == pairs[0];
      assert Written(sep, pairs + [p]) == WrittenPair(sep, pairs[0]) + (Written(sep, pairs[1..]) + WrittenPair(sep, p));
    }
  }

  // ---- Scanning a written message

  /** A pair that can be read back: a numeric tag that the number table holds, and a value that is not
      empty and has no separator. The value may contain further equal signs. */
  predicate Writable(sep: char, p: Pair) {
    1 <= |p.tag| <= 16 && AllDigits(p.tag) && p.val != "" && sep !in p.val
  }

  predicate AllWritable(sep: char, pairs: seq<Pair>) {
    forall p <- pairs :: Writable(sep, p)
  }

  /** The fields of a written message, when the first pair starts at `at` */
  function WrittenFields(pairs: seq<Pair>, at: nat): seq<Field> {
    if pairs == [] then []
    else
      var p := pairs[0];
      [Field(TagOf(p.tag), at + |p.tag| + 1, |p.val|)] + WrittenFields(pairs[1..], at + |p.tag| + |p.val| + 2)
  }

  lemma {:induction false} StepOnPair(sep: char, before: string, p: Pair, rest: string)
    requires Writable(sep, p)
    ensures var msg := before + WrittenPair(sep, p) + rest;
            Readable(msg, |before|)
            && StepAt(msg, sep, |before|) ==
               Found(Field(TagOf(p.tag), |before| + |p.tag| + 1, |p.val|), |before| + |p.tag| + |p.val| + 2)
  {
    var msg := before + WrittenPair(sep, p) + rest;
    var equal := |before| + |p.tag|;
    var end := equal + 1 + |p.val|;
    PairInside(sep, before, p, rest);
    FindIs(msg, '=', |before|, equal);
    FindIs(msg, sep, equal + 1, end);
  }

  lemma {:induction false} PairInside(sep: char, before: string, p: Pair, rest: string)
    requires Writable(sep, p)
    ensures var msg := before + WrittenPair(sep, p) + rest;
            var equal := |before| + |p.tag|;
            var end := equal + 1 + |p.val|;
            end < |msg| && msg[|before|..equal] == p.tag && msg[equal] == '='
            && msg[equal + 1..end] == p.val && msg[end] == sep
            && (forall j :: |before| <= j < equal ==> msg[j] != '=')
            && (forall j :: equal + 1 <= j < end ==> msg[j] != sep)
  {
    var msg := before + WrittenPair(sep, p) + rest;
    var equal := |before| + |p.tag|;
    var end := equal + 1 + |p.val|;
    assert msg == before + (p.tag + (['='] + (p.val + ([sep] + rest))));
    forall j | |before| <= j < equal
      ensures msg[j] != '='
    {
      assert msg[j] == p.tag[j - |before|] && IsDigit(p.tag[j - |before|]);
    }
    forall j | equal + 1 <= j < end
      ensures msg[j] != sep
    {
      assert msg[j] == p.val[j - equal - 1] && p.val[j - equal - 1] in p.val;
    }
  }

  /** A written message is well formed and readable, and its fields are the pairs in order. */
  lemma {:induction false} ScanOfWritten(sep: char, before: string, pairs: seq<Pair>)
    requires AllWritable(sep, pairs)
    ensures var msg := before + Written(sep, pairs);
            AllReadable(msg, sep, |before|)
            && ScanFrom(msg, sep, |before|) == Scan(WrittenFields(pairs, |before|), true)
    decreases pairs
  {
    hide StepAt, Readable, TagOf;
    var msg := before + Written(sep, pairs);
    if pairs != [] {
      var p := pairs[0];
      assert p in pairs;
      var next := before + WrittenPair(sep, p);
      assert msg == next + Written(sep, pairs[1..]);
      StepOnPair(sep, before, p, Written(sep, pairs[1..]));
      assert |next| == |before| + |p.tag| + |p.val| + 2;
      ScanOfWritten(sep, next, pairs[1..]);
    }
  }

  // ---- The last value written

  /** The last pair whose tag text reads as the number */
  function LastWritten(pairs: seq<Pair>, tag: int): Option<string> {
    if pairs == [] then None
    else if TagOf(pairs[|pairs| - 1].tag) == tag then Some(pairs[|pairs| - 1].val)
    else LastWritten(pairs[..|pairs| - 1], tag)
  }

  lemma {:induction false} WrittenFieldsSnoc(pairs: seq<Pair>, sep: char, p: Pair, at: nat)
    ensures WrittenFields(pairs + [p], at) ==
            WrittenFields(pairs, at) + [Field(TagOf(p.tag), at + |Written(sep, pairs)| + |p.tag| + 1, |p.val|)]
  {
    hide TagOf, Written, WrittenFields;
    FirstField(pairs + [p], sep, at);
    FirstField(pairs, sep, at);
    if pairs == [] {
      assert (pairs + [p])[0] == p && (pairs + [p])[1..] == [];
      FirstField([], sep, at + |p.tag| + |p.val| + 2);
    } else {
      var next := at + |pairs[0].tag| + |pairs[0].val| + 2;
      assert (pairs + [p])[0] == pairs[0] && (pairs + [p])[1..] == pairs[1..] + [p];
      WrittenFieldsSnoc(pairs[1..], sep, p, next);
      assert at + |Written(sep, pairs)| == next + |Written(sep, pairs[1..])|;
      var first := [Field(TagOf(pairs[0].tag), at + |pairs[0].tag| + 1, |pairs[0].val|)];
      var last := [Field(TagOf(p.tag), at + |Written(sep, pairs)| + |p.tag| + 1, |p.val|)];
      assert first + (WrittenFields(pairs[1..], next) + last) == (first + WrittenFields(pairs[1..], next)) + last;
    }
  }

  lemma {:induction false} FirstField(pairs: seq<Pair>, sep: char, at: nat)
    ensures pairs == [] ==> WrittenFields(pairs, at) == [] && Written(sep, pairs) == ""
    ensures pairs != [] ==>
              var p := pairs[0];
              var next := |p.tag| + |p.val| + 2;
              WrittenFields(pairs, at) ==
                [Field(TagOf(p.tag), at + |p.tag| + 1, |p.val|)] + WrittenFields(pairs[1..], at + next)
              && |Written(sep, pairs)| == next + |Written(sep, pairs[1..])|
  {
    hide TagOf;
  }

  lemma {:induction false} LastFieldOfWritten(sep: char, pairs: seq<Pair>, rest: string, tag: int)
    requires AllWritable(sep, pairs)
    ensures var msg := Written(sep, pairs) + rest;
            match LastField(WrittenFields(pairs, 0), tag)
            case None => LastWritten(pairs, tag) == None
            case Some(f) => f.at + f.len <= |msg| && LastWritten(pairs, tag) == Some(ValueOf(msg, f))
    decreases |pairs|
  {
    hide TagOf, Written, WrittenFields;
    if pairs == [] {
      NoFields(0);
    } else {
      var init, p := pairs[..|pairs| - 1], pairs[|pairs| - 1];
      assert pairs == init + [p];
      WrittenSnoc(sep, init, p);
      WrittenFieldsSnoc(init, sep, p, 0);
      var f := Field(TagOf(p.tag), |Written(sep, init)| + |p.tag| + 1, |p.val|);
      LastFieldSnoc(WrittenFields(init, 0), f, tag);
      assert Writable(sep, p);
      PairInside(sep, Written(sep, init), p, rest);
      var msg := Written(sep, pairs) + rest;
      assert msg == Written(sep, init) + WrittenPair(sep, p) + rest == Written(sep, init) + (WrittenPair(sep,
          p) + rest);
      LastFieldOfWritten(sep, init, WrittenPair(sep, p) + rest, tag);
    }
  }

  lemma {:induction false} NoFields(at: nat)
    ensures WrittenFields([], at) == []
  {
  }

  /** Looking up a tag in a written message of at most 65535 characters gives the last value written
      under that number, and nothing when there is none. */
  lemma {:induction false} LookupOfWritten(sep: char, pairs: seq<Pair>, tag: int)
    requires AllWritable(sep, pairs) && |Written(sep, pairs)| <= 0xffff
    ensures AllReadable(Written(sep, pairs), sep, 0)
    ensures Lookup(Written(sep, pairs), sep, tag) ==
            match LastWritten(pairs, tag) case None => "" case Some(v) => v
  {
    hide Written, WrittenFields, ScanFrom, LastField, LastWritten, Lookup;
    var msg := Written(sep, pairs);
    assert "" + msg == msg && msg + "" == msg;
    ScanOfWritten(sep, "", pairs);
    LookupIsValue(msg, sep, tag);
    LastFieldOfWritten(sep, pairs, "", tag);
  }

  // ---- The trailer

  predicate IsTrailer(p: Pair) {
    p.tag == "10" && |p.val| == 3
  }

  /** In a message separated by SOH exactly a last field 10 with three characters is cut off. */
  lemma {:induction false} TrimmedWritten(pairs: seq<Pair>)
    requires pairs != [] && AllWritable(SOH, pairs) && |Written(SOH, pairs)| >= 8
    ensures var init, p := pairs[..|pairs| - 1], pairs[|pairs| - 1];
            Trimmed(Written(SOH, pairs)) == Written(SOH, if IsTrailer(p) then init else pairs)
  {
    hide Written;
    var init, p := pairs[..|pairs| - 1], pairs[|pairs| - 1];
    assert pairs == init + [p] && Writable(SOH, p);
    WrittenSnoc(SOH, init, p);
    if init == [] {
      NothingWritten();
      assert "" + WrittenPair(SOH, p) == WrittenPair(SOH, p);
      SinglePairStays(p);
    } else {
      var first, q := init[..|init| - 1], init[|init| - 1];
      assert init == first + [q] && Writable(SOH, q);
      WrittenSnoc(SOH, first, q);
      TrimLastPair(Written(SOH, first) + WrittenPair(SOH, q), p);
    }
  }

  lemma {:induction false} NothingWritten()
    ensures Written(SOH, []) == ""
  {
  }

  /** The trailer by itself is shorter than eight characters. */
  lemma {:induction false} SinglePairStays(p: Pair)
    requires Writable(SOH, p) && |WrittenPair(SOH, p)| >= 8
    ensures !IsTrailer(p) && Trimmed(WrittenPair(SOH, p)) == WrittenPair(SOH, p)
  {
    var w := WrittenPair(SOH, p);
    SeparatorsOfPair(p);
    assert w[|w| - 8..|w| - 4][0] == w[|w| - 8];
  }

  lemma {:induction false} TrimLastPair(before: string, p: Pair)
    requires Writable(SOH, p) && |before| >= 4 && before[|before| - 1] == SOH
    ensures Trimmed(before + WrittenPair(SOH, p)) == if IsTrailer(p) then before else before + WrittenPair(SOH, p)
  {
    var w := WrittenPair(SOH, p);
    var buf := before + w;
    var n := |buf|;
    assert w == p.tag + (['='] + (p.val + [SOH]));
    if IsTrailer(p) {
      assert buf[n - 8..n - 4] == [SOH] + "10=";
      assert buf[..n - 7] == before;
    } else {
      assert buf[n - 8..n - 4] != [SOH] + "10=" by {
        var tail := buf[n - 8..n - 4];
        if tail == [SOH] + "10=" {
          assert tail[0] == SOH && tail[1] == '1' && tail[2] == '0' && tail[3] == '=';
          SeparatorOfPair(before, p, n - 8);
        }
      }
    }
  }

  /** The only separator of a pair is its last character, so a separator eight places before the end
      of the message, in front of the trailer's tag, is the one in front of the pair. */
  lemma {:induction false} SeparatorOfPair(before: string, p: Pair, i: nat)
    requires Writable(SOH, p) && |before| >= 4 && before[|before| - 1] == SOH
    requires var buf := before + WrittenPair(SOH, p);
             i + 8 == |buf| && buf[i] == SOH && buf[i + 1] == '1' && buf[i + 2] == '0' && buf[i + 3] == '='
    ensures IsTrailer(p)
  {
    var w := WrittenPair(SOH, p);
    var buf := before + w;
    assert w == p.tag + (['='] + (p.val + [SOH])) && |w| >= 4;
    SeparatorsOfPair(p);
    assert buf[|before| - 1] == SOH;
    assert i == |before| - 1;
    assert w[0] == '1' && w[1] == '0' && w[2] == '=';
    assert w[|p.tag|] == '=' && forall j :: 0 <= j < |p.tag| ==> w[j] == p.tag[j] && IsDigit(p.tag[j]);
    assert |p.tag| == 2 && p.tag == "10";
  }

  lemma {:induction false} SeparatorsOfPair(p: Pair)
    requires Writable(SOH, p)
    ensures var w := WrittenPair(SOH, p); forall j :: 0 <= j < |w| - 1 ==> w[j] != SOH
  {
    var w := WrittenPair(SOH, p);
    assert w == p.tag + (['='] + (p.val + [SOH]));
    forall j | 0 <= j < |w| - 1
      ensures w[j] != SOH
    {
      if j < |p.tag| {
        assert w[j] == p.tag[j] && IsDigit(p.tag[j]);
      } else if j > |p.tag| {
        assert w[j] == p.val[j - |p.tag| - 1] && p.val[j - |p.tag| - 1] in p.val;
      }
    }
  }

  // ---- Writing, reading back

  /** The pairs that survive the trimming. Other separators are safe when no SOH is written at all. */
  function Surviving(sep: char, pairs: seq<Pair>): seq<Pair>
    requires pairs != []
  {
    if sep == SOH && IsTrailer(pairs[|pairs| - 1]) then pairs[..|pairs| - 1] else pairs
  }

  lemma {:induction false} SurvivingPairs(sep: char, pairs: seq<Pair>)
    requires pairs != [] && AllWritable(sep, pairs) && 8 <= |Written(sep, pairs)| <= 0xffff
    requires sep == SOH || SOH !in Written(sep, pairs)
    ensures var kept := Surviving(sep, pairs);
            Trimmed(Written(sep, pairs)) == Written(sep, kept) && |Written(sep, kept)| <= 0xffff && AllWritable(sep,
                kept)
  {
    hide Written;
    if sep == SOH {
      TrimmedWritten(pairs);
    } else {
      var msg := Written(sep, pairs);
      assert msg[|msg| - 8..|msg| - 4][0] == msg[|msg| - 8] && msg[|msg| - 8] in msg;
    }
    TrimmedIsShorter(Written(sep, pairs));
  }

  lemma {:induction false} TrimmedIsShorter(buf: string)
    ensures |Trimmed(buf)| <= |buf|
  {
  }

  /** Pairs whose tags are numbers of type int, written as numerals */
  ghost predicate Numbered(pairs: seq<Pair>) {
    forall p <- pairs :: exists n: nat :: n <= INT_MAX && p.tag == Numeral(n)
  }

  /** The last value that was written with the tag text, empty when there is none */
  function LastText(pairs: seq<Pair>, text: string): string {
    if pairs == [] then ""
    else if pairs[|pairs| - 1].tag == text then pairs[|pairs| - 1].val
    else LastText(pairs[..|pairs| - 1], text)
  }

  lemma {:induction false} NumeralsAreTags(m: nat, n: nat)
    requires m <= INT_MAX && n <= INT_MAX
    ensures TagOf(Numeral(m)) == n <==> Numeral(m) == Numeral(n)
  {
    hide Numeral, Decimal, AllDigits;
    DecimalOfNumeral(m);
    DecimalOfNumeral(n);
  }

  lemma {:induction false} LastWrittenNumber(pairs: seq<Pair>, n: nat)
    requires Numbered(pairs) && n <= INT_MAX
    ensures LastText(pairs, Numeral(n)) == match LastWritten(pairs, n) case None => "" case Some(v) => v
  {
    hide TagOf, Numeral;
    if pairs != [] {
      var p := pairs[|pairs| - 1];
      assert p in pairs && forall q <- pairs[..|pairs| - 1] :: q in pairs;
      var m: nat :| m <= INT_MAX && p.tag == Numeral(m);
      NumeralsAreTags(m, n);
      LastWrittenNumber(pairs[..|pairs| - 1], n);
    }
  }

  lemma {:induction false} SurvivingNumbered(sep: char, pairs: seq<Pair>)
    requires pairs != [] && Numbered(pairs)
    ensures Numbered(Surviving(sep, pairs))
  {
    hide Numeral;
    assert forall q <- Surviving(sep, pairs) :: q in pairs;
  }

  /** What a reader finds in a message that was written: for every sequence of requests, the last value
      written under each number, without a trailer at the end. When all tags are numerals, this is the last
      pair with the numeral of the request. */
  method WriteAndRead(tags: seq<int>, sep: char, fix8: string, tvp: seq<Pair>, requests: seq<int32>)
    returns (values: seq<string>)
    requires Compiles(tags) && forall t :: t in requests ==> t in tags
    requires AllWritable(sep, [Pair("8", fix8)] + tvp)
    requires 8 <= |Written(sep, [Pair("8", fix8)] + tvp)| <= 0xffff
    requires sep == SOH || SOH !in Written(sep, [Pair("8", fix8)] + tvp)
    ensures |values| == |requests|
    ensures forall i :: 0 <= i < |requests| ==>
              values[i] == match LastWritten(Surviving(sep, [Pair("8", fix8)] + tvp), requests[i])
                           case None => ""
                           case Some(v) => v
    ensures Numbered([Pair("8", fix8)] + tvp) ==>
              forall i :: 0 <= i < |requests| ==>
                requests[i] >= 0 && values[i] == LastText(Surviving(sep, [Pair("8", fix8)] + tvp), Numeral(requests[i]))
  {
    hide Written, LastWritten, AllReadable, Trimmed, Lookup, Reader.Valid, Numbered, Numeral, Surviving, LastText;
    ghost var pairs := [Pair("8", fix8)] + tvp;
    ghost var kept := Surviving(sep, pairs);
    var buf := Write(sep, fix8, tvp);
    SurvivingPairs(sep, pairs);
    var reader := new Reader(tags, sep);
    LookupOfWritten(sep, kept, 0);
    reader.Set(buf);
    values := GetPairs(reader, requests);
    forall i | 0 <= i < |requests|
      ensures values[i] == match LastWritten(kept, requests[i]) case None => "" case Some(v) => v
    {
      LookupOfWritten(sep, kept, requests[i]);
    }
    if Numbered(pairs) {
      SurvivingNumbered(sep, pairs);
      forall i | 0 <= i < |requests|
        ensures requests[i] >= 0 && values[i] == LastText(kept, Numeral(requests[i]))
      {
        assert requests[i] in requests && requests[i] in tags;
        LastWrittenNumber(kept, requests[i]);
      }
    }
  }
}
