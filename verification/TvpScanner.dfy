/** fatoi and step: the table-driven reading of a tag and the incremental scan of tag=value fields. */
module TvpScanner {
  import opened MachineInts
  import opened Wrappers
  import opened TvpTable

  // ---- Decimal numbers

  predicate AllDigits(text: string) {
    forall i :: 0 <= i < |text| ==> IsDigit(text[i])
  }

  function Digit(c: char): int {
    c as int - 48
  }

  function Decimal(text: string): int {
    if text == "" then 0 else 10 * Decimal(text[..|text| - 1]) + Digit(text[|text| - 1])
  }

  function Pow10(n: nat): nat {
    if n == 0 then 1 else 10 * Pow10(n - 1)
  }

  /** Row `r`, column `c` of the table `ints` */
  function Ints(r: nat, c: nat): nat
    requires r < 16 && c < 10
  {
    c * Pow10(r)
  }

  method Fatoi(text: string) returns (rtn: int)
    requires AllDigits(text) && |text| <= 16
    ensures rtn == Decimal(text)
  {
    rtn := 0;
    for i := 0 to |text|
      invariant rtn == Decimal(text[..i]) * Pow10(|text| - i)
    {
      assert IsDigit(text[i]);
      DecimalStep(text, i);
      rtn := rtn + Ints(|text| - i - 1, Digit(text[i]));
    }
    assert text[..|text|] == text;
  }

  lemma {:induction false} DecimalStep(text: string, i: nat)
    requires i < |text|
    ensures Decimal(text[..i + 1]) * Pow10(|text| - i - 1) ==
            Decimal(text[..i]) * Pow10(|text| - i) + Digit(text[i]) * Pow10(|text| - i - 1)
  {
    assert text[..i + 1][..i] == text[..i];
    var d, p := Decimal(text[..i]), Pow10(|text| - i - 1);
    assert Pow10(|text| - i) == 10 * p;
    assert (10 * d + Digit(text[i])) * p == d * (10 * p) + Digit(text[i]) * p;
  }

  lemma {:induction false} DecimalBound(text: string)
    requires AllDigits(text)
    ensures 0 <= Decimal(text) < Pow10(|text|)
  {
    if text != "" {
      DecimalBound(text[..|text| - 1]);
      assert IsDigit(text[|text| - 1]);
    }
  }

  // ---- Numerals

  /** A number as it is written */
  function Numeral(n: nat): string {
    (if n < 10 then "" else Numeral(n / 10)) + ["0123456789"[n % 10]]
  }

  /** The decimal value of a numeral is the number, ... */
  lemma {:induction false} DecimalOfNumeral(n: nat)
    ensures AllDigits(Numeral(n)) && Decimal(Numeral(n)) == n
  {
    var front: string := if n < 10 then "" else Numeral(n / 10);
    var last := "0123456789"[n % 10];
    if n >= 10 {
      DecimalOfNumeral(n / 10);
    }
    assert Numeral(n) == front + [last];
    DigitOfNumeral(n % 10);
    hide Numeral, IsDigit, Digit, AllDigits;
    DigitsSnoc(front, last);
    DecimalSnoc(front, last);
  }

  lemma {:induction false} DecimalSnoc(text: string, c: char)
    ensures Decimal(text + [c]) == 10 * Decimal(text) + Digit(c)
  {
    assert (text + [c])[..|text|] == text;
  }

  lemma {:induction false} DigitOfNumeral(d: nat)
    requires d < 10
    ensures IsDigit("0123456789"[d]) && Digit("0123456789"[d]) == d
  {
  }

  /** ... also behind leading zeros. */
  lemma {:induction false} LeadingZero(text: string)
    ensures Decimal("0" + text) == Decimal(text)
  {
    var longer := "0" + text;
    if text == "" {
      assert longer[..0] == "";
    } else {
      assert longer[..|text|] == "0" + text[..|text| - 1];
      LeadingZero(text[..|text| - 1]);
    }
  }

  lemma {:induction false} NumeralLength(n: nat, m: nat)
    requires 0 < m && n < Pow10(m)
    ensures 1 <= |Numeral(n)| <= m
  {
    if n >= 10 {
      assert Pow10(m) == 10 * Pow10(m - 1);
      NumeralLength(n / 10, m - 1);
    }
  }

  // ---- One field

  /** The tag of a field as the scanner keeps it: the decimal value stored in an int, or 0 when the
      text is not a number. */
  function TagOf(text: string): int32 {
    if AllDigits(text) then ToInt(Decimal(text)) else 0
  }

  /** A number is kept as it is exactly when it fits an int ... */
  lemma {:induction false} TagIsExactIffSmall(text: string)
    requires AllDigits(text)
    ensures TagOf(text) == Decimal(text) <==> Decimal(text) <= INT_MAX
  {
    DecimalBound(text);
  }

  /** ... and larger ones are mistaken for other tags: this one for 35. */
  lemma {:induction false} LargeTagIsMistaken()
    ensures var text := "4294967331"; AllDigits(text) && |text| <= 16 && TagOf(text) == 35
  {
    var text := "4294967331";
    assert text[..9] == "429496733" && text[..9][..8] == "42949673" && text[..9][..8][..7] == "4294967";
    DecimalOfSeven();
    assert Decimal("42949673") == 42949673 && Decimal("429496733") == 429496733;
    assert Decimal(text) == 4294967331;
  }

  lemma {:induction false} DecimalOfSeven()
    ensures Decimal("4294967") == 4294967
  {
    assert "4294967"[..6] == "429496" && "429496"[..5] == "42949" && "42949"[..4] == "4294";
    assert "4294"[..3] == "429" && "429"[..2] == "42" && "42"[..1] == "4" && "4"[..0] == "";
    assert Decimal("4") == 4;
    assert Decimal("42") == 42;
    assert Decimal("429") == 429;
    assert Decimal("4294") == 4294;
    assert Decimal("42949") == 42949;
    assert Decimal("429496") == 429496;
  }

  lemma {:induction false} PowersIncrease(a: nat, b: nat)
    requires a <= b
    ensures 1 <= Pow10(a) <= Pow10(b)
  {
    if a < b {
      PowersIncrease(a, b - 1);
    } else if a > 0 {
      PowersIncrease(a - 1, a - 1);
    }
  }

  datatype Field = Field(tag: int32, at: nat, len: nat)

  /** The three exceptions of step */
  datatype Error = EqualIsMissing | UnterminatedMessage | EmptyTag

  datatype StepResult = Found(field: Field, next: nat) | Thrown(error: Error, next: nat)

  function Find(msg: string, c: char, from: nat): (i: nat)
    requires from <= |msg|
    ensures from <= i <= |msg| && (i < |msg| ==> msg[i] == c)
    ensures forall j :: from <= j < i ==> msg[j] != c
    decreases |msg| - from
  {
    if from == |msg| || msg[from] == c then from else Find(msg, c, from + 1)
  }

  lemma {:induction false} FindIs(msg: string, c: char, from: nat, i: nat)
    requires from <= i < |msg| && msg[i] == c && forall j :: from <= j < i ==> msg[j] != c
    ensures Find(msg, c, from) == i
  {
  }

  /** What one step finds at `cur` */
  function StepAt(msg: string, sep: char, cur: nat): (r: StepResult)
    requires cur <= |msg|
    ensures r.Found? ==>
              cur < r.next <= |msg| && 1 <= r.field.at && r.field.at + r.field.len < r.next && 0 < r.field.len
  {
    var equal := Find(msg, '=', cur);
    if equal == |msg| then Thrown(EqualIsMissing, equal)
    else
      var end := Find(msg, sep, equal + 1);
      if end == |msg| then Thrown(UnterminatedMessage, end)
      else if end == equal + 1 then Thrown(EmptyTag, end + 1)
      else Found(Field(TagOf(msg[cur..equal]), equal + 1, end - (equal + 1)), end + 1)
  }

  /** A field with an equal sign and a separator behind it: its value is what is between them, and its tag
      the number in front, or 0 when there is a character that is not a digit. */
  lemma {:induction false} StepMeans(msg: string, sep: char, cur: nat, equal: nat, end: nat)
    requires cur <= equal < |msg| && msg[equal] == '=' && forall j :: cur <= j < equal ==> msg[j] != '='
    requires equal < end < |msg| && msg[end] == sep && forall j :: equal < j < end ==> msg[j] != sep
    ensures end == equal + 1 ==> StepAt(msg, sep, cur) == Thrown(EmptyTag, end + 1)
    ensures end > equal + 1 ==>
              var r := StepAt(msg, sep, cur);
              && r.Found? && r.next == end + 1 && r.field.at == equal + 1 && r.field.len == end - equal - 1
              && ((exists j :: cur <= j < equal && !('0' <= msg[j] <= '9')) ==> r.field.tag == 0)
              && (forall n: nat :: n <= INT_MAX && msg[cur..equal] == Numeral(n) ==> r.field.tag == n)
  {
    hide Find, Decimal, Numeral;
    FindIs(msg, '=', cur, equal);
    FindIs(msg, sep, equal + 1, end);
    var text := msg[cur..equal];
    if j :| cur <= j < equal && !('0' <= msg[j] <= '9') {
      assert text[j - cur] == msg[j];
    }
    forall n: nat | n <= INT_MAX && text == Numeral(n)
      ensures TagOf(text) == n
    {
      DecimalOfNumeral(n);
    }
  }

  /** The other two exceptions */
  lemma {:induction false} StepThrows(msg: string, sep: char, cur: nat)
    requires cur <= |msg|
    ensures (forall j :: cur <= j < |msg| ==> msg[j] != '=') ==> StepAt(msg, sep, cur) == Thrown(EqualIsMissing, |msg|)
    ensures forall equal ::
              cur <= equal < |msg| && msg[equal] == '=' && (forall j :: cur <= j < equal ==> msg[j] != '=')
              && (forall j :: equal < j < |msg| ==> msg[j] != sep) ==>
                StepAt(msg, sep, cur) == Thrown(UnterminatedMessage, |msg|)
  {
    forall equal | cur <= equal < |msg| && msg[equal] == '=' && (forall j :: cur <= j < equal ==> msg[j] != '=')
                   && (forall j :: equal < j < |msg| ==> msg[j] != sep)
      ensures StepAt(msg, sep, cur) == Thrown(UnterminatedMessage, |msg|)
    {
      FindIs(msg, '=', cur, equal);
    }
  }

  /** The tag texts that the number table can read */
  predicate Readable(msg: string, cur: nat)
    requires cur <= |msg|
  {
    var equal := Find(msg, '=', cur);
    equal < |msg| && AllDigits(msg[cur..equal]) ==> equal - cur <= 16
  }

  /** The running product of digit indices, which is zero once a character was not a digit */
  predicate NumCheck(text: string, product: nat) {
    && (!AllDigits(text) ==> product == 0)
    && (AllDigits(text) && |text| <= 16 ==> 1 <= product <= Pow10(|text|))
  }

  lemma {:induction false} NumCheckStep(text: string, c: char, product: nat, index: nat)
    requires NumCheck(text, product) && index <= 10 && (0 < index <==> IsDigit(c))
    ensures NumCheck(text + [c], product * index % 0x1_0000_0000_0000_0000)
  {
    hide AllDigits, IsDigit, Pow10;
    DigitsSnoc(text, c);
    if AllDigits(text) && IsDigit(c) && |text| < 16 {
      ProductBounds(|text|, product, index);
    } else if !(AllDigits(text) && IsDigit(c)) {
      assert product * index == 0;
    }
  }

  lemma {:induction false} DigitsSnoc(text: string, c: char)
    ensures AllDigits(text + [c]) <==> AllDigits(text) && IsDigit(c)
  {
    var longer := text + [c];
    assert longer[|text|] == c;
    assert forall i :: 0 <= i < |text| ==> longer[i] == text[i];
  }

  lemma {:induction false} ProductBounds(n: nat, product: nat, index: nat)
    requires n < 16 && 1 <= product <= Pow10(n) && 1 <= index <= 10
    ensures 1 <= product * index <= Pow10(n + 1) < 0x1_0000_0000_0000_0000
  {
    MulMonotone(1, product, index);
    MulMonotone(product, Pow10(n), index);
    MulMonotone(index, 10, Pow10(n));
    PowersIncrease(n + 1, 16);
    Pow16();
  }

  lemma {:induction false} Pow16()
    ensures Pow10(16) == 10_000_000_000_000_000
  {
    assert Pow10(4) == 10_000;
    assert Pow10(8) == 100_000_000;
    assert Pow10(12) == 1_000_000_000_000;
  }

  method Step(msg: string, sep: char, current0: nat) returns (r: StepResult)
    requires current0 <= |msg| && Readable(msg, current0)
    ensures r == StepAt(msg, sep, current0)
  {
    hide MapTag2Index, AllDigits, NumCheck, Find, Decimal, ToInt, Compiles, IndexOf;
    var current := current0;
    var equal: Option<nat> := None;
    var tagnumcheck := 1;
    assert msg[current0..current0] == "";
    NumCheckEmpty();
    while current < |msg|
      invariant current0 <= current <= Find(msg, '=', current0) && equal.None?
      invariant NumCheck(msg[current0..current], tagnumcheck)
    {
      if msg[current] == '=' {
        equal := Some(current);
        current := current + 1;
        break;
      } else {
        DigitIndex(msg[current]);
        var pos := MapTag2Index(DIGITS, msg[current] as int);
        NumCheckStep(msg[current0..current], msg[current], tagnumcheck, pos);
        assert msg[current0..current + 1] == msg[current0..current] + [msg[current]];
        tagnumcheck := tagnumcheck * pos % 0x1_0000_0000_0000_0000;
      }
      current := current + 1;
    }
    if equal.None? {
      return Thrown(EqualIsMissing, current);
    }
    var tag: int32 := 0;
    NumCheckDecides(msg[current0..equal.value], tagnumcheck);
    if tagnumcheck != 0 {
      var number := Fatoi(msg[current0..equal.value]);
      tag := ToInt(number);
    }
    var end: Option<nat> := None;
    while current < |msg|
      invariant equal.value + 1 <= current <= Find(msg, sep, equal.value + 1) && end.None?
    {
      if msg[current] == sep {
        end := Some(current);
        current := current + 1;
        break;
      }
      current := current + 1;
    }
    if end.None? {
      return Thrown(UnterminatedMessage, current);
    }
    if end.value == equal.value + 1 {
      return Thrown(EmptyTag, current);
    }
    return Found(Field(tag, equal.value + 1, end.value - (equal.value + 1)), current);
  }

  lemma {:induction false} NumCheckEmpty()
    ensures NumCheck("", 1)
  {
  }

  lemma {:induction false} NumCheckDecides(text: string, product: nat)
    requires NumCheck(text, product) && (AllDigits(text) ==> |text| <= 16)
    ensures product != 0 <==> AllDigits(text)
  {
  }
}
