/** The two fixed label tables the grid is drawn from. */
module Calendar {

  /** The seven weekday labels, Monday first. */
  const DaysOfWeek: seq<string> := ["Lunes", "Martes", "Miércoles", "Jueves", "Viernes", "Sábado", "Domingo"]

  /** The character of one decimal digit. */
  function DigitChar(d: nat): (c: char)
    requires d < 10
    ensures '0' <= c <= '9'
  {
    ('0' as int + d) as char
  }

  /** `n.toString()`: the decimal digits of `n`, without leading zeros. */
  function NatToString(n: nat): (s: string)
    ensures 1 <= |s|
    decreases n
  {
    if n < 10 then [DigitChar(n)] else NatToString(n / 10) + [DigitChar(n % 10)]
  }

  /** `s.padStart(width, fill)` for a one-character fill: as many fill
      characters in front of `s` as it takes to reach `width`. */
  function PadStart(s: string, width: nat, fill: char): (r: string)
    ensures |r| == if |s| < width then width else |s|
    ensures r[|r| - |s|..] == s
    ensures forall i :: 0 <= i < |r| - |s| ==> r[i] == fill
  {
    if |s| >= width then s else seq(width - |s|, _ => fill) + s
  }

  /** The label of hour `h`: two-digit, zero-padded, followed by ":00". */
  function HourLabel(h: nat): string
  {
    PadStart(NatToString(h), 2, '0') + ":00"
  }

  /** The hour table: the labels of the hours 0 to 23, in order. */
  function HoursOfDay(): seq<string>
  {
    seq(24, h requires 0 <= h => HourLabel(h))
  }

  /** Strict lexicographic order on strings, as the labels of a table are compared. */
  predicate LexLess(a: string, b: string)
  {
    if a == [] then b != []
    else if b == [] then false
    else a[0] < b[0] || (a[0] == b[0] && LexLess(a[1..], b[1..]))
  }

  /** Every label of the day table is different from every other. */
  predicate Distinct(s: seq<string>)
  {
    forall i, j :: 0 <= i < j < |s| ==> s[i] != s[j]
  }

  lemma DigitCharInjective(a: nat, b: nat)
    requires a < 10 && b < 10
    ensures (DigitChar(a) == DigitChar(b)) == (a == b)
    ensures (DigitChar(a) < DigitChar(b)) == (a < b)
  {
  }

  /** An hour label below 24 is the tens digit, the units digit, then ":00". */
  lemma HourLabelDigits(h: nat)
    requires h < 24
    ensures HourLabel(h) == [DigitChar(h / 10), DigitChar(h % 10), ':', '0', '0']
  {
    if h < 10 {
      assert NatToString(h) == [DigitChar(h)];
      assert DigitChar(0) == '0';
    } else {
      assert NatToString(h / 10) == [DigitChar(h / 10)];
      assert NatToString(h) == [DigitChar(h / 10), DigitChar(h % 10)];
    }
  }

  /** Hour labels of earlier hours sort strictly before those of later ones. */
  lemma HourLabelsIncrease(i: nat, j: nat)
    requires i < j < 24
    ensures LexLess(HourLabel(i), HourLabel(j))
  {
    HourLabelDigits(i);
    HourLabelDigits(j);
    DigitCharInjective(i / 10, j / 10);
    DigitCharInjective(i % 10, j % 10);
    var a, b := HourLabel(i), HourLabel(j);
    if i / 10 == j / 10 {
      assert a[0] == b[0];
      assert a[1..][0] < b[1..][0];
    } else {
      assert a[0] < b[0];
    }
  }

  /** A strictly smaller string is a different string. */
  lemma {:induction false} LexLessIrreflexive(a: string)
    ensures !LexLess(a, a)
  {
    if a != [] {
      LexLessIrreflexive(a[1..]);
    }
  }

  /** The hour table: 24 labels from "00:00" to "23:00", strictly increasing and
      therefore distinct, each the zero-padded hour followed by ":00". */
  lemma {:induction false} HoursOfDayFacts()
    ensures |HoursOfDay()| == 24
    ensures HoursOfDay()[0] == "00:00" && HoursOfDay()[23] == "23:00"
    ensures forall h :: 0 <= h < 24 ==>
      HoursOfDay()[h] == [DigitChar(h / 10), DigitChar(h % 10), ':', '0', '0']
    ensures forall i, j :: 0 <= i < j < 24 ==> LexLess(HoursOfDay()[i], HoursOfDay()[j])
    ensures Distinct(HoursOfDay())
  {
    var hs := HoursOfDay();
    forall h | 0 <= h < 24
      ensures hs[h] == [DigitChar(h / 10), DigitChar(h % 10), ':', '0', '0']
    {
      HourLabelDigits(h);
    }
    assert DigitChar(0) == '0' && DigitChar(2) == '2' && DigitChar(3) == '3';
    forall i, j | 0 <= i < j < 24
      ensures LexLess(hs[i], hs[j]) && hs[i] != hs[j]
    {
      HourLabelsIncrease(i, j);
      if hs[i] == hs[j] {
        LexLessIrreflexive(hs[i]);
      }
    }
  }

  /** The day table: seven distinct labels, Monday first and Sunday last. */
  lemma DaysOfWeekFacts()
    ensures |DaysOfWeek| == 7
    ensures DaysOfWeek[0] == "Lunes" && DaysOfWeek[6] == "Domingo"
    ensures Distinct(DaysOfWeek)
  {
  }

  /** Both tables list each label once. */
  lemma TablesDistinct()
    ensures Distinct(DaysOfWeek) && Distinct(HoursOfDay())
  {
    DaysOfWeekFacts();
    HoursOfDayFacts();
  }
}
