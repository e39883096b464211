/** tvp_reader: a reader that remembers, for every accepted tag, where its value was seen last, against
    a rescan of the whole message on every request. */
module TvpReader {
  import opened MachineInts
  import opened Wrappers
  import opened TvpTable
  import opened TvpScanner

  // ---- The naive reading of a message

  /** The fields from `cur` on, up to the end of the message or to the first error */
  datatype Scan = Scan(fields: seq<Field>, complete: bool)

  function ScanFrom(msg: string, sep: char, cur: nat): Scan
    requires cur <= |msg|
    decreases |msg| - cur
  {
    if cur == |msg| then Scan([], true)
    else
      match StepAt(msg, sep, cur)
      case Thrown(_, _) => Scan([], false)
      case Found(field, next) =>
        var rest := ScanFrom(msg, sep, next);
        Scan([field] + rest.fields, rest.complete)
  }

  function LastField(fields: seq<Field>, tag: int): Option<Field> {
    if fields == [] then None
    else if fields[|fields| - 1].tag == tag then Some(fields[|fields| - 1])
    else LastField(fields[..|fields| - 1], tag)
  }

  function ValueOf(msg: string, f: Field): string
    requires f.at + f.len <= |msg|
  {
    msg[f.at..f.at + f.len]
  }

  /** Positions and lengths are stored in 16 bits. */
  datatype Where = Where(offset: nat, len: nat)

  function Stored(f: Field): Where {
    Where(f.at % 0x1_0000, f.len % 0x1_0000)
  }

  /** What is read back through a stored position */
  function ReadBack(msg: string, w: Where): string {
    var offset := if w.offset == 0 then 1 else w.offset;
    if offset + w.len <= |msg| then msg[offset..offset + w.len] else ""
  }

  /** The value of the last field with the tag, empty when there is none, and always empty when the
      message is not well formed */
  function Lookup(msg: string, sep: char, tag: int): string {
    var scan := ScanFrom(msg, sep, 0);
    match LastField(scan.fields, tag)
    case None => ""
    case Some(f) => if scan.complete then ReadBack(msg, Stored(f)) else ""
  }

  lemma {:induction false} FieldsInside(msg: string, sep: char, cur: nat, f: Field)
    requires cur <= |msg| && f in ScanFrom(msg, sep, cur).fields
    ensures 1 <= f.at && f.at + f.len <= |msg| && 0 < f.len
    decreases |msg| - cur
  {
    if cur < |msg| && StepAt(msg, sep, cur).Found? {
      var r := StepAt(msg, sep, cur);
      if f != r.field {
        FieldsInside(msg, sep, r.next, f);
      }
    }
  }

  lemma {:induction false} LastFieldIn(fields: seq<Field>, tag: int)
    ensures match LastField(fields, tag)
            case None => forall f <- fields :: f.tag != tag
            case Some(f) => f in fields && f.tag == tag
  {
    if fields != [] && fields[|fields| - 1].tag != tag {
      LastFieldIn(fields[..|fields| - 1], tag);
      assert forall f <- fields :: f in fields[..|fields| - 1] || f == fields[|fields| - 1];
    }
  }

  /** In messages whose size fits 16 bits the lookup is the value itself. */
  lemma {:induction false} LookupIsValue(msg: string, sep: char, tag: int)
    requires |msg| <= 0xffff && ScanFrom(msg, sep, 0).complete
    ensures match LastField(ScanFrom(msg, sep, 0).fields, tag)
            case None => Lookup(msg, sep, tag) == ""
            case Some(f) => f.at + f.len <= |msg| && Lookup(msg, sep, tag) == ValueOf(msg, f)
  {
    hide ScanFrom, LastField;
    var fields := ScanFrom(msg, sep, 0).fields;
    LastFieldIn(fields, tag);
    if LastField(fields, tag).Some? {
      FieldsInside(msg, sep, 0, LastField(fields, tag).value);
    }
  }

  /** In any message: what is read starts and ends at the position and length modulo 2^16, position 0 read as
      1. It is the value exactly when the length fits 16 bits and so does the position, or else the same text
      stands where the reading starts. */
  lemma {:induction false} LookupInLongMessage(msg: string, sep: char, tag: int, f: Field, a: nat, o: nat, b: nat,
      l: nat)
    requires ScanFrom(msg, sep, 0).complete && LastField(ScanFrom(msg, sep, 0).fields, tag) == Some(f)
    requires f.at == 0x1_0000 * a + o && f.len == 0x1_0000 * b + l && o <= 0xffff && l <= 0xffff
    ensures f.at + f.len <= |msg|
    ensures var start := if o == 0 then 1 else o;
            && start + l <= |msg| && Lookup(msg, sep, tag) == msg[start..start + l]
            && (Lookup(msg, sep, tag) == ValueOf(msg, f) <==>
                b == 0 && (a == 0 || msg[start..start + l] == msg[f.at..f.at + l]))
  {
    hide ScanFrom, LastField, Stored;
    LastFieldIn(ScanFrom(msg, sep, 0).fields, tag);
    FieldsInside(msg, sep, 0, f);
    StoredIs(f, a, o, b, l);
    var start := if o == 0 then 1 else o;
    assert |msg[start..start + l]| == l;
    assert |msg[f.at..f.at + f.len]| == f.len;
  }

  lemma {:induction false} StoredIs(f: Field, a: nat, o: nat, b: nat, l: nat)
    requires f.at == 0x1_0000 * a + o && f.len == 0x1_0000 * b + l && o <= 0xffff && l <= 0xffff
    ensures Stored(f) == Where(o, l)
  {
  }

  /** A value of 65536 characters is read as the empty one. */
  lemma {:induction false} LongValueIsLost()
    ensures var value := seq(0x1_0000, _ => 'A'); var msg := "58=" + value + [1 as char];
            && ScanFrom(msg, 1 as char, 0) == Scan([Field(58, 3, 0x1_0000)], true)
            && msg[3..3 + 0x1_0000] == value && Lookup(msg, 1 as char, 58) == ""
  {
    var value := seq(0x1_0000, _ => 'A');
    var msg := "58=" + value + [1 as char];
    var end := 3 + 0x1_0000;
    assert msg[0..2] == "58" == Numeral(58);
    StepMeans(msg, 1 as char, 0, 2, end);
    assert |msg| == end + 1;
    assert ScanFrom(msg, 1 as char, end + 1) == Scan([], true);
    LookupInLongMessage(msg, 1 as char, 58, Field(58, 3, 0x1_0000), 0, 3, 1, 0);
  }

  // ---- The position cache

  /** A cache entry: untouched entries may have been given offset 1 by a request. */
  predicate EntryFor(w: Where, f: Option<Field>) {
    match f
    case None => w.offset <= 1 && w.len == 0
    case Some(field) =>
      w.len == Stored(field).len
      && (w.offset == Stored(field).offset || (Stored(field).offset == 0 && w.offset == 1))
  }

  lemma {:induction false} LastFieldSnoc(fields: seq<Field>, f: Field, tag: int)
    ensures LastField(fields + [f], tag) == if f.tag == tag then Some(f) else LastField(fields, tag)
  {
    assert (fields + [f])[..|fields|] == fields;
  }

  lemma {:induction false} ScanStep(msg: string, sep: char, cur: nat, seen: seq<Field>)
    requires cur < |msg| && StepAt(msg, sep, cur).Found?
    requires ScanFrom(msg, sep, 0).fields == seen + ScanFrom(msg, sep, cur).fields
    requires ScanFrom(msg, sep, 0).complete == ScanFrom(msg, sep, cur).complete
    ensures var r := StepAt(msg, sep, cur);
            ScanFrom(msg, sep, 0).fields == (seen + [r.field]) + ScanFrom(msg, sep, r.next).fields
            && ScanFrom(msg, sep, 0).complete == ScanFrom(msg, sep, r.next).complete
  {
    var r := StepAt(msg, sep, cur);
    var rest := ScanFrom(msg, sep, r.next).fields;
    assert seen + ([r.field] + rest) == (seen + [r.field]) + rest;
  }

  /** Every tag text that the scan meets can be read by the number table. */
  predicate AllReadable(msg: string, sep: char, cur: nat)
    requires cur <= |msg|
    decreases |msg| - cur
  {
    cur < |msg| ==>
      Readable(msg, cur) && (StepAt(msg, sep, cur).Found? ==> AllReadable(msg, sep, StepAt(msg, sep, cur).next))
  }

  /** The message without the trailer: a last field 10 of three characters, as the source recognises it */
  function Trimmed(buf: string): string {
    if |buf| >= 8 && buf[|buf| - 8..|buf| - 4] == [1 as char] + "10=" then buf[..|buf| - 7] else buf
  }

  lemma {:induction false} TrimmedMeans(buf: string)
    ensures Trimmed(buf) == buf || (Trimmed(buf) <= buf && |Trimmed(buf)| == |buf| - 7)
    ensures Trimmed(buf) != buf <==>
              |buf| >= 8 && buf[|buf| - 8] == 1 as char && buf[|buf| - 7] == '1' &&
              buf[|buf| - 6] == '0' && buf[|buf| - 5] == '='
  {
    if |buf| >= 8 {
      var tail := buf[|buf| - 8..|buf| - 4];
      assert tail == [buf[|buf| - 8], buf[|buf| - 7], buf[|buf| - 6], buf[|buf| - 5]];
      var mark := [1 as char] + "10=";
      assert mark[0] == 1 as char && mark[1] == '1' && mark[2] == '0' && mark[3] == '=';
      assert tail == mark <==> tail[0] == mark[0] && tail[1] == mark[1] && tail[2] == mark[2] && tail[3] == mark[3];
    }
  }

  class Reader {
    const tags: seq<int>
    const sep: char
    const cache: array<Where>
    var content: string
    var lastLookupPosition: nat
    ghost var seen: seq<Field>

    /** The cache holds the last positions among the fields seen so far, which are the first fields of
        the message. */
    ghost predicate Valid()
      reads this, cache
    {
      && Compiles(tags) && cache.Length == |tags|
      && lastLookupPosition <= |content|
      && ScanFrom(content, sep, 0).fields == seen + ScanFrom(content, sep, lastLookupPosition).fields
      && ScanFrom(content, sep, 0).complete == ScanFrom(content, sep, lastLookupPosition).complete
      && AllReadable(content, sep, lastLookupPosition)
      && CacheIsRight()
    }

    ghost predicate CacheIsRight()
      reads this, cache
      requires cache.Length == |tags|
    {
      forall t :: t in tags ==> 0 < IndexOf(tags, t) <= |tags| && EntryFor(cache[IndexOf(tags, t) - 1],
          LastField(seen, t))
    }

    /** No request has been made yet. */
    predicate Untouched()
      reads this, cache
    {
      lastLookupPosition == 0 && content == "" && forall i :: 0 <= i < cache.Length ==> cache[i] == Where(0, 0)
    }

    constructor (tags: seq<int>, sep: char)
      requires Compiles(tags)
      ensures Valid() && Untouched() && this.tags == tags && this.sep == sep && fresh(cache)
    {
      this.tags, this.sep := tags, sep;
      cache := new Where[|tags|](_ => Where(0, 0));
      content, lastLookupPosition, seen := "", 0, [];
      new;
      forall t | t in tags
        ensures 0 < IndexOf(tags, t) <= |tags|
      {
        IndexBounds(tags, t);
      }
    }

    /** set: the source compares the eight bytes before the end of a buffer that is not empty. */
    method Set(buf: string)
      requires Valid() && Untouched() && (buf == "" || |buf| >= 8) && AllReadable(Trimmed(buf), sep, 0)
      modifies this
      ensures Valid() && content == Trimmed(buf)
      ensures content == buf || (content <= buf && |content| == |buf| - 7)
      ensures content != buf <==>
                |buf| >= 8 && buf[|buf| - 8] == 1 as char && buf[|buf| - 7] == '1' &&
                buf[|buf| - 6] == '0' && buf[|buf| - 5] == '='
    {
      var size := |buf|;
      if size > 0 && buf[size - 8..size - 4] == [1 as char] + "10=" {
        size := size - 7;
      }
      content := buf[..size];
      TrimmedMeans(buf);
      assert buf[..|buf|] == buf;
      seen := [];
      assert CacheIsRight() by {
        forall t | t in tags
          ensures 0 < IndexOf(tags, t) <= |tags|
        {
          IndexBounds(tags, t);
        }
      }
    }

    /** getPair: whatever was requested before, the result is that of a rescan of the whole message. */
    method GetPair(tag: int32) returns (value: string)
      requires Valid() && tag in tags
      modifies this`lastLookupPosition, this`seen, cache
      ensures Valid() && value == Lookup(content, sep, tag)
    {
      hide ScanFrom, AllReadable, StepAt, LastField, IndexOf, ReadBack;
      IndexBounds(tags, tag);
      LookupIsIndex(tags, tag);
      var position := MapTag2Index(tags, tag);
      while lastLookupPosition < |content|
        invariant Valid()
        decreases |content| - lastLookupPosition
      {
        NextReadable(content, sep, lastLookupPosition);
        var p := Step(content, sep, lastLookupPosition);
        if p.Thrown? {
          BrokenScan(content, sep, lastLookupPosition);
          BrokenLookup(content, sep, tag);
          return "";
        }
        ScanStep(content, sep, lastLookupPosition, seen);
        Remember(p.field);
        lastLookupPosition := p.next;
      }
      WholeScan(content, sep);
      assert seen + [] == seen;
      var loc := cache[position - 1];
      if loc.offset == 0 {
        loc := loc.(offset := 1);
        cache[position - 1] := loc;
        EntriesApart(tag);
      }
      FoundLookup(content, sep, tag, loc);
      return ReadBack(content, loc);
    }

    /** Enter one more field into the cache. */
    method Remember(f: Field)
      requires Compiles(tags) && cache.Length == |tags| && CacheIsRight()
      modifies this`seen, cache
      ensures seen == old(seen) + [f] && CacheIsRight()
    {
      hide LastField, IndexOf, MapTag2Index, EntryFor, Different, Compiles;
      var position := MapTag2Index(tags, f.tag);
      LookupIsIndex(tags, f.tag);
      IndexBounds(tags, f.tag);
      StoredIsEntry(f);
      if position != 0 {
        cache[position - 1] := Stored(f);
      }
      seen := seen + [f];
      forall t | t in tags
        ensures 0 < IndexOf(tags, t) <= |tags| && EntryFor(cache[IndexOf(tags, t) - 1], LastField(seen, t))
      {
        LastFieldSnoc(old(seen), f, t);
        IndexIsPerfect(tags, t, f.tag);
      }
    }

    lemma {:induction false} StoredIsEntry(f: Field)
      ensures EntryFor(Stored(f), Some(f))
    {
    }

    lemma {:induction false} EntriesApart(tag: int)
      requires tag in tags
      ensures forall t :: t in tags && t != tag ==> IndexOf(tags, t) != IndexOf(tags, tag)
    {
      forall t | t in tags && t != tag
        ensures IndexOf(tags, t) != IndexOf(tags, tag)
      {
        IndexIsPerfect(tags, t, tag);
      }
    }
  }

  lemma {:induction false} NextReadable(msg: string, sep: char, cur: nat)
    requires cur < |msg| && AllReadable(msg, sep, cur)
    ensures Readable(msg, cur)
    ensures StepAt(msg, sep, cur).Found? ==> AllReadable(msg, sep, StepAt(msg, sep, cur).next)
  {
  }

  lemma {:induction false} BrokenScan(msg: string, sep: char, cur: nat)
    requires cur < |msg| && StepAt(msg, sep, cur).Thrown?
    ensures !ScanFrom(msg, sep, cur).complete
  {
  }

  lemma {:induction false} BrokenLookup(msg: string, sep: char, tag: int)
    requires !ScanFrom(msg, sep, 0).complete
    ensures Lookup(msg, sep, tag) == ""
  {
  }

  lemma {:induction false} WholeScan(msg: string, sep: char)
    ensures ScanFrom(msg, sep, |msg|) == Scan([], true)
  {
  }

  lemma {:induction false} FoundLookup(msg: string, sep: char, tag: int, w: Where)
    requires ScanFrom(msg, sep, 0).complete && w.offset != 0
    requires EntryFor(w, LastField(ScanFrom(msg, sep, 0).fields, tag))
    ensures Lookup(msg, sep, tag) == ReadBack(msg, w)
  {
  }

  /** Any sequence of requests: each is answered as if it were the only one. */
  method GetPairs(reader: Reader, requests: seq<int32>) returns (values: seq<string>)
    requires reader.Valid() && forall t :: t in requests ==> t in reader.tags
    modifies reader`lastLookupPosition, reader`seen, reader.cache
    ensures reader.Valid() && |values| == |requests|
    ensures forall i :: 0 <= i < |requests| ==> values[i] == Lookup(reader.content, reader.sep, requests[i])
  {
    hide Reader.Valid, Lookup;
    values := [];
    for i := 0 to |requests|
      invariant reader.Valid() && |values| == i
      invariant forall j :: 0 <= j < i ==> values[j] == Lookup(reader.content, reader.sep, requests[j])
    {
      var v := reader.GetPair(requests[i]);
      values := values + [v];
    }
  }
}
