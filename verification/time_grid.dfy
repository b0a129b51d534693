/** The fixed weekly grid: half-hour time labels and weekdays, the conversion of
    a label to minutes since midnight, and the JavaScript string order with
    which the schedule compares labels. */
module TimeGrid {

  /** Row labels of the grid: every half hour from 09:00 to the closing 18:00. */
  const TimeSlots: seq<string> := [
    "09:00", "09:30", "10:00", "10:30", "11:00", "11:30",
    "12:00", "12:30", "13:00", "13:30", "14:00", "14:30",
    "15:00", "15:30", "16:00", "16:30", "17:00", "17:30", "18:00"
  ]

  /** Column headers, Monday to Friday; an entry's day is an index into this. */
  const Days: seq<string> := ["월", "화", "수", "목", "금"]

  // ---------- JavaScript string comparison ----------

  /** JavaScript's `a < b` on strings: a proper prefix is smaller; otherwise the
      first position where the two differ decides. */
  function StrLess(a: string, b: string): (less: bool)
    ensures less ==> a != b
    decreases |a|
  {
    if |a| == 0 then |b| > 0
    else if |b| == 0 then false
    else if a[0] != b[0] then a[0] < b[0]
    else
      assert a[1..] == b[1..] ==> a == b;
      StrLess(a[1..], b[1..])
  }

  /** A proper prefix comes first. */
  lemma {:induction false} ProperPrefixIsLess(a: string, b: string)
    requires |a| < |b| && a == b[..|a|]
    ensures StrLess(a, b)
  {
    if |a| > 0 {
      assert a[1..] == b[1..][..|a| - 1];
      ProperPrefixIsLess(a[1..], b[1..]);
    }
  }

  /** JavaScript's `a <= b` on strings, which the language defines as `!(b < a)`:
      the two strings are equal or `a` comes first. */
  function Le(a: string, b: string): (r: bool)
    ensures r <==> a == b || StrLess(a, b)
  {
    StrLessAsymmetric(a, b);
    StrLessConnected(a, b);
    !StrLess(b, a)
  }

  /** JavaScript's `a >= b` on strings, which the language defines as `!(a < b)`:
      the two strings are equal or `b` comes first. */
  function Ge(a: string, b: string): (r: bool)
    ensures r <==> a == b || StrLess(b, a)
  {
    StrLessAsymmetric(a, b);
    StrLessConnected(a, b);
    !StrLess(a, b)
  }

  lemma {:induction false} StrLessTransitive(a: string, b: string, c: string)
    requires StrLess(a, b) && StrLess(b, c)
    ensures StrLess(a, c)
  {
    if |a| > 0 && |b| > 0 && |c| > 0 && a[0] == b[0] && b[0] == c[0] {
      StrLessTransitive(a[1..], b[1..], c[1..]);
    }
  }

  /** Of two strings, at most one comes before the other. */
  lemma {:induction false} StrLessAsymmetric(a: string, b: string)
    ensures StrLess(a, b) ==> !StrLess(b, a)
  {
    if StrLess(a, b) && StrLess(b, a) {
      StrLessTransitive(a, b, a);
    }
  }

  /** Any two different strings are ordered one way or the other. */
  lemma {:induction false} StrLessTotal(a: string, b: string)
    requires a != b
    ensures StrLess(a, b) || StrLess(b, a)
  {
    if |a| > 0 && |b| > 0 && a[0] == b[0] {
      assert a == [a[0]] + a[1..] && b == [b[0]] + b[1..];
      StrLessTotal(a[1..], b[1..]);
    }
  }

  /** Two strings are equal or ordered one way or the other. */
  lemma StrLessConnected(a: string, b: string)
    ensures a == b || StrLess(a, b) || StrLess(b, a)
  {
    if a != b {
      StrLessTotal(a, b);
    }
  }

  /** `a <= b && b < c` gives `a < c`. */
  lemma LeLessTrans(a: string, b: string, c: string)
    requires Le(a, b) && StrLess(b, c)
    ensures StrLess(a, c)
  {
    if a != b {
      StrLessTotal(a, b);
      StrLessTransitive(a, b, c);
    }
  }

  // ---------- labels and minutes ----------

  predicate IsDigit(c: char) { '0' <= c <= '9' }

  function DigitValue(c: char): nat
    requires IsDigit(c)
  {
    (c as int) - ('0' as int)
  }

  /** A zero-padded "HH:MM" label. */
  predicate IsLabel(s: string)
  {
    |s| == 5 && IsDigit(s[0]) && IsDigit(s[1]) && s[2] == ':' && IsDigit(s[3]) && IsDigit(s[4])
  }

  function Hours(s: string): nat
    requires IsLabel(s)
  {
    10 * DigitValue(s[0]) + DigitValue(s[1])
  }

  function Minutes(s: string): nat
    requires IsLabel(s)
  {
    10 * DigitValue(s[3]) + DigitValue(s[4])
  }

  /** A label whose minutes part is a real minute of the hour. */
  predicate IsClockLabel(s: string)
  {
    IsLabel(s) && Minutes(s) < 60
  }

  /** `timeToMinutes`: split the label at ':' and read hours and minutes as
      numbers. On a clock label the result lies within the label's hour. */
  function TimeToMinutes(s: string): (m: nat)
    requires IsLabel(s)
    ensures IsClockLabel(s) ==> 60 * Hours(s) <= m < 60 * (Hours(s) + 1)
  {
    Hours(s) * 60 + Minutes(s)
  }

  // ---------- string order on labels is minute order ----------

  /** A character that may appear in a label: a digit or the separator. */
  predicate IsLabelChar(c: char) { IsDigit(c) || c == ':' }

  function CharValue(c: char): nat
  {
    if IsDigit(c) then DigitValue(c) else 0
  }

  function Pow10(n: nat): nat
  {
    if n == 0 then 1 else 10 * Pow10(n - 1)
  }

  /** A string of label characters read as a decimal numeral, the separator
      counting as a zero digit. */
  function Numeral(s: string): nat
  {
    if |s| == 0 then 0 else CharValue(s[0]) * Pow10(|s| - 1) + Numeral(s[1..])
  }

  /** Two strings of equal length, made of label characters, with their
      separators in the same places. */
  predicate SameShape(a: string, b: string)
  {
    |a| == |b| &&
    forall k :: 0 <= k < |a| ==> IsLabelChar(a[k]) && IsLabelChar(b[k]) && (a[k] == ':' <==> b[k] == ':')
  }

  lemma {:induction false} NumeralBound(s: string)
    ensures Numeral(s) < Pow10(|s|)
  {
    if |s| > 0 {
      NumeralBound(s[1..]);
      var p := Pow10(|s| - 1);
      MulMonotone(CharValue(s[0]), 9, p);
    }
  }

  /** A larger leading digit outweighs any difference in the digits after it. */
  lemma LeadingDigitDecides(va: nat, vb: nat, p: nat, ra: nat, rb: nat)
    requires va < vb && ra < p
    ensures va * p + ra < vb * p + rb
  {
    MulMonotone(va + 1, vb, p);
    assert (va + 1) * p == va * p + p;
  }

  lemma {:induction false} MulMonotone(x: nat, y: nat, p: nat)
    requires x <= y
    ensures x * p <= y * p
    decreases y - x
  {
    if x < y {
      MulMonotone(x, y - 1, p);
      assert y * p == (y - 1) * p + p;
    }
  }

  /** On strings of the same shape, string order is numeral order. */
  lemma {:induction false} StrLessIsNumeralLess(a: string, b: string)
    requires SameShape(a, b)
    ensures StrLess(a, b) <==> Numeral(a) < Numeral(b)
    decreases |a|
  {
    if |a| > 0 {
      var a', b' := a[1..], b[1..];
      assert SameShape(a', b') by {
        forall k | 0 <= k < |a'|
          ensures IsLabelChar(a'[k]) && IsLabelChar(b'[k]) && (a'[k] == ':' <==> b'[k] == ':')
        {
          assert a'[k] == a[k + 1] && b'[k] == b[k + 1];
        }
      }
      var p := Pow10(|a| - 1);
      assert Numeral(a) == CharValue(a[0]) * p + Numeral(a');
      assert Numeral(b) == CharValue(b[0]) * p + Numeral(b');
      if a[0] == b[0] {
        StrLessIsNumeralLess(a', b');
      } else {
        assert IsDigit(a[0]) && IsDigit(b[0]);
        NumeralBound(a');
        NumeralBound(b');
        if a[0] < b[0] {
          LeadingDigitDecides(CharValue(a[0]), CharValue(b[0]), p, Numeral(a'), Numeral(b'));
        } else {
          LeadingDigitDecides(CharValue(b[0]), CharValue(a[0]), p, Numeral(b'), Numeral(a'));
        }
      }
    }
  }

  lemma LabelNumeral(s: string)
    requires IsLabel(s)
    ensures Numeral(s) == 1000 * Hours(s) + Minutes(s)
  {
    assert s[1..][1..] == s[2..] && s[2..][1..] == s[3..] && s[3..][1..] == s[4..] && s[4..][1..] == [];
    assert Numeral(s[4..]) == DigitValue(s[4]);
    assert Numeral(s[3..]) == DigitValue(s[3]) * 10 + DigitValue(s[4]);
    assert Numeral(s[2..]) == Numeral(s[3..]);
    assert Numeral(s[1..]) == DigitValue(s[1]) * 1000 + Numeral(s[2..]);
  }

  /** Two labels have the same shape: five characters, the separator third. */
  lemma LabelsSameShape(a: string, b: string)
    requires IsLabel(a) && IsLabel(b)
    ensures SameShape(a, b)
  {
  }

  /** On well-formed labels, JavaScript's string order is the order of their minutes. */
  lemma LabelOrder(a: string, b: string)
    requires IsClockLabel(a) && IsClockLabel(b)
    ensures StrLess(a, b) <==> TimeToMinutes(a) < TimeToMinutes(b)
  {
    LabelNumeral(a);
    LabelNumeral(b);
    LabelsSameShape(a, b);
    StrLessIsNumeralLess(a, b);
    HourMinuteOrder(Hours(a), Minutes(a), Hours(b), Minutes(b));
  }

  /** Hours and minutes below 60 compare the same way weighted by 1000 or by 60. */
  lemma HourMinuteOrder(ha: nat, ma: nat, hb: nat, mb: nat)
    requires ma < 60 && mb < 60
    ensures 1000 * ha + ma < 1000 * hb + mb <==> 60 * ha + ma < 60 * hb + mb
  {
  }

  // ---------- the fixed labels ----------

  /** Slot `i` is a well-formed label, 30 minutes after slot `i - 1`, starting at 09:00. */
  lemma SlotMinutes(i: int)
    requires 0 <= i < |TimeSlots|
    ensures IsClockLabel(TimeSlots[i])
    ensures TimeToMinutes(TimeSlots[i]) == 540 + 30 * i
  {
    if i < 10 {
      MorningSlotMinutes(i);
    } else {
      AfternoonSlotMinutes(i);
    }
  }

  lemma MorningSlotMinutes(i: int)
    requires 0 <= i < 10
    ensures IsClockLabel(TimeSlots[i])
    ensures TimeToMinutes(TimeSlots[i]) == 540 + 30 * i
  {
    var s := TimeSlots[i];
    if i == 0 {
      assert s == "09:00";
    } else if i == 1 {
      assert s == "09:30";
    } else if i == 2 {
      assert s == "10:00";
    } else if i == 3 {
      assert s == "10:30";
    } else if i == 4 {
      assert s == "11:00";
    } else if i == 5 {
      assert s == "11:30";
    } else if i == 6 {
      assert s == "12:00";
    } else if i == 7 {
      assert s == "12:30";
    } else if i == 8 {
      assert s == "13:00";
    } else {
      assert s == "13:30";
    }
  }

  lemma AfternoonSlotMinutes(i: int)
    requires 10 <= i < |TimeSlots|
    ensures IsClockLabel(TimeSlots[i])
    ensures TimeToMinutes(TimeSlots[i]) == 540 + 30 * i
  {
    var s := TimeSlots[i];
    if i == 10 {
      assert s == "14:00";
    } else if i == 11 {
      assert s == "14:30";
    } else if i == 12 {
      assert s == "15:00";
    } else if i == 13 {
      assert s == "15:30";
    } else if i == 14 {
      assert s == "16:00";
    } else if i == 15 {
      assert s == "16:30";
    } else if i == 16 {
      assert s == "17:00";
    } else if i == 17 {
      assert s == "17:30";
    } else {
      assert s == "18:00";
    }
  }

  /** On the fixed labels, string order, slot order and minute order agree. */
  lemma SlotOrder(i: int, j: int)
    requires 0 <= i < |TimeSlots| && 0 <= j < |TimeSlots|
    ensures StrLess(TimeSlots[i], TimeSlots[j]) <==> i < j
  {
    SlotMinutes(i);
    SlotMinutes(j);
    ClockOrder(TimeSlots[i], TimeSlots[j], i, j);
  }

  lemma ClockOrder(a: string, b: string, i: int, j: int)
    requires IsClockLabel(a) && IsClockLabel(b)
    requires TimeToMinutes(a) == 540 + 30 * i && TimeToMinutes(b) == 540 + 30 * j
    ensures StrLess(a, b) <==> i < j
  {
    LabelOrder(a, b);
  }

  /** A clock label on the half hour from 09:00 to 18:00: what the grid labels are. */
  predicate OnGrid(s: string)
  {
    IsClockLabel(s) && 540 <= TimeToMinutes(s) <= 1080 && TimeToMinutes(s) % 30 == 0
  }

  /** Every grid label is on the grid. */
  lemma SlotLabel(s: string)
    requires s in TimeSlots
    ensures OnGrid(s)
  {
    var i :| 0 <= i < |TimeSlots| && TimeSlots[i] == s;
    SlotMinutes(i);
  }

  /** Two clock labels of the same minute are the same label. */
  lemma SameMinuteSameLabel(a: string, b: string)
    requires IsClockLabel(a) && IsClockLabel(b) && TimeToMinutes(a) == TimeToMinutes(b)
    ensures a == b
  {
    LabelOrder(a, b);
    LabelOrder(b, a);
    if a != b {
      StrLessTotal(a, b);
    }
  }

  /** Every label on the grid is one of the grid labels. */
  lemma OnGridIsSlot(s: string)
    requires OnGrid(s)
    ensures s in TimeSlots
  {
    var i := (TimeToMinutes(s) - 540) / 30;
    SlotMinutes(i);
    SameMinuteSameLabel(s, TimeSlots[i]);
  }

  /** Between two grid labels, the earlier first, lie a whole number of half
      hours: at least one and at most the nine hours of the grid. */
  lemma SlotSpan(a: string, b: string)
    requires OnGrid(a) && OnGrid(b) && StrLess(a, b)
    ensures 30 <= TimeToMinutes(b) - TimeToMinutes(a) <= 540
    ensures (TimeToMinutes(b) - TimeToMinutes(a)) % 30 == 0
  {
    LabelOrder(a, b);
    HalfHourGap(TimeToMinutes(a), TimeToMinutes(b));
  }

  lemma HalfHourGap(x: int, y: int)
    requires 540 <= x < y <= 1080 && x % 30 == 0 && y % 30 == 0
    ensures 30 <= y - x <= 540 && (y - x) % 30 == 0
  {
    assert x == 30 * (x / 30) && y == 30 * (y / 30);
    assert y - x == 30 * (y / 30 - x / 30);
  }

  /** Each fixed label occurs once, so a label determines its slot. */
  lemma SlotsAreDistinct(i: int, j: int)
    requires 0 <= i < |TimeSlots| && 0 <= j < |TimeSlots|
    requires TimeSlots[i] == TimeSlots[j]
    ensures i == j
  {
    SlotOrder(i, j);
    SlotOrder(j, i);
  }
}
