/** The readable forms of a size and of an age, and what is lost when they are printed and parsed again. */
module ReadableConfig {
  import opened Options

  const KILO := 1024
  const MEGA := 1024 * KILO
  const GIGA := 1024 * MEGA

  const HOUR := 60
  const DAY := 24 * HOUR
  const WEEK := 7 * DAY
  const MONTH := 31 * DAY
  const YEAR := 366 * DAY

  /** The numbers of a 64-bit machine, and what a product is there. */
  const LIMIT := 0x8000_0000_0000_0000

  function Wrapped(n: int): int { (n + LIMIT) % (2 * LIMIT) - LIMIT }

  // ----- numbers as text

  function Digit(d: nat): char
    requires d < 10
  {
    '0' + d as char
  }

  predicate IsDigit(c: char) { '0' <= c <= '9' }

  function Decimal(n: nat): (s: string)
    ensures s != ""
  {
    (if n < 10 then "" else Decimal(n / 10)) + [Digit(n % 10)]
  }

  function ValueOf(s: string): nat
    requires AllDigits(s)
  {
    if s == "" then 0 else ValueOf(s[..|s|-1]) * 10 + (s[|s|-1] - '0') as nat
  }

  predicate AllDigits(s: string) { forall k :: 0 <= k < |s| ==> IsDigit(s[k]) }

  lemma {:induction false} DecimalValue(n: nat)
    ensures AllDigits(Decimal(n)) && ValueOf(Decimal(n)) == n
  {
    var front := if n < 10 then "" else Decimal(n / 10);
    if n >= 10 { DecimalValue(n / 10); }
    assert Decimal(n)[..|Decimal(n)|-1] == front;
  }

  // ----- parsing

  predicate IsSpace(c: char) { c in {' ', '\t', '\n', '\r', 0x0c as char} }

  function SkipSpaces(s: string): string {
    if s != "" && IsSpace(s[0]) then SkipSpaces(s[1..]) else s
  }

  function DigitCount(s: string): (n: nat)
    ensures n <= |s| && AllDigits(s[..n])
  {
    if s == "" || !IsDigit(s[0]) then 0
    else
      var n := DigitCount(s[1..]);
      assert s[..n+1] == [s[0]] + s[1..][..n];
      n + 1
  }

  /** Spaces, digits, spaces, and a unit: the number, if it is one of the machine, and the unit. */
  function Scan(s: string): Option<(nat, string)> {
    var t := SkipSpaces(s);
    var n := DigitCount(t);
    if n == 0 || ValueOf(t[..n]) >= LIMIT then None else Some((ValueOf(t[..n]), SkipSpaces(t[n..])))
  }

  function ParseMaxSize(s: string): Option<int> {
    match Scan(s)
    case None => None
    case Some((n, unit)) =>
      if unit in {"gb", "GB"} then Some(Wrapped(n * GIGA))
      else if unit in {"mb", "MB"} then Some(Wrapped(n * MEGA))
      else if unit in {"kb", "KB"} then Some(Wrapped(n * KILO))
      else if unit in {"b", "B"} then Some(n)
      else None
  }

  /** The age in minutes, as the text of a duration. */
  function ParseMaxAge(s: string): Option<string> {
    match Scan(s)
    case None => None
    case Some((n, unit)) =>
      if unit == "year" then Some(Minutes(Wrapped(n * YEAR)))
      else if unit == "month" then Some(Minutes(Wrapped(n * MONTH)))
      else if unit == "week" then Some(Minutes(Wrapped(n * WEEK)))
      else if unit == "day" then Some(Minutes(Wrapped(n * DAY)))
      else if unit == "hour" then Some(Minutes(Wrapped(n * HOUR)))
      else if unit == "min" then Some(Minutes(n))
      else None
  }

  function Minutes(n: int): string { (if n < 0 then "-" + Decimal(-n) else Decimal(n)) + "m" }

  // ----- printing

  /** The rest beyond a multiple of the unit is less than one percent. */
  predicate Negligible(x: nat, unit: nat)
    requires unit > 0
  {
    100 * (x % unit) < x
  }

  function Print(n: nat, unit: string): string { Decimal(n) + " " + unit }

  function ReadableMaxSize(x: nat): string {
    if Negligible(x, GIGA) then Print(x / GIGA, "GB")
    else if Negligible(x, MEGA) then Print(x / MEGA, "MB")
    else if Negligible(x, KILO) then Print(x / KILO, "KB")
    else Print(x, "B")
  }

  function ReadableMaxAge(x: nat): string {
    if Negligible(x, YEAR) then Print(x / YEAR, "year")
    else if Negligible(x, MONTH) then Print(x / MONTH, "month")
    else if Negligible(x, WEEK) then Print(x / WEEK, "week")
    else if Negligible(x, DAY) then Print(x / DAY, "day")
    else if Negligible(x, HOUR) then Print(x / HOUR, "hour")
    else Print(x, "min")
  }

  // ----- there and back

  lemma {:induction false} DigitsBefore(a: string, b: string)
    requires AllDigits(a) && (b == "" || !IsDigit(b[0]))
    ensures DigitCount(a + b) == |a|
  {
    if a == "" {
      assert a + b == b;
    } else {
      assert (a + b)[1..] == a[1..] + b;
      DigitsBefore(a[1..], b);
    }
  }

  lemma ScanPrinted(n: nat, unit: string)
    requires n < LIMIT && unit != "" && !IsSpace(unit[0])
    ensures Scan(Print(n, unit)) == Some((n, unit))
  {
    var d, rest := Decimal(n), " " + unit;
    var s := Print(n, unit);
    assert s == d + rest;
    DecimalValue(n);
    DigitsBefore(d, rest);
    assert IsDigit(d[0]) && s[0] == d[0];
    assert SkipSpaces(s) == s && s[..|d|] == d && s[|d|..] == rest;
    assert rest[1..] == unit;
    assert SkipSpaces(unit) == unit;
  }

  // ----- every spelling

  predicate AllSpaces(s: string) { forall k :: 0 <= k < |s| ==> IsSpace(s[k]) }

  /** Digits with spaces in front of and behind them, and a unit. */
  predicate IsSpelled(s: string, before: string, digits: string, behind: string, unit: string) {
    && s == before + (digits + (behind + unit)) && AllSpaces(before) && AllSpaces(behind)
    && digits != "" && AllDigits(digits)
  }

  /** The 64-bit number that `n` leaves. */
  predicate IsWord(r: int, n: int) {
    -0x8000_0000_0000_0000 <= r < 0x8000_0000_0000_0000 && (r - n) % 0x1_0000_0000_0000_0000 == 0
  }

  lemma WrappedIsWord(n: int)
    ensures IsWord(Wrapped(n), n)
  {
  }

  lemma WordInRange(r: int, n: int)
    requires IsWord(r, n) && -0x8000_0000_0000_0000 <= n < 0x8000_0000_0000_0000
    ensures r == n
  {
  }

  lemma {:induction false} SpacesSkipped(a: string, b: string)
    requires AllSpaces(a) && (b == "" || !IsSpace(b[0]))
    ensures SkipSpaces(a + b) == b
  {
    if a == "" {
      assert a + b == b;
    } else {
      assert (a + b)[1..] == a[1..] + b;
      SpacesSkipped(a[1..], b);
    }
  }

  lemma {:induction false} Skipped(s: string) returns (a: string)
    ensures s == a + SkipSpaces(s) && AllSpaces(a)
    ensures SkipSpaces(s) == "" || !IsSpace(SkipSpaces(s)[0])
  {
    a := "";
    if s != "" && IsSpace(s[0]) {
      var rest := Skipped(s[1..]);
      a := [s[0]] + rest;
      assert s == [s[0]] + s[1..];
    }
  }

  lemma ScanSpelled(s: string, before: string, digits: string, behind: string, unit: string)
    requires IsSpelled(s, before, digits, behind, unit) && unit != "" && !IsSpace(unit[0]) && !IsDigit(unit[0])
    ensures Scan(s) == if ValueOf(digits) < LIMIT then Some((ValueOf(digits), unit)) else None
  {
    var rest := behind + unit;
    assert rest[0] == if behind == "" then unit[0] else behind[0];
    DigitsBefore(digits, rest);
    assert (digits + rest)[0] == digits[0] && IsDigit(digits[0]);
    SpacesSkipped(before, digits + rest);
    SpacesSkipped(behind, unit);
    assert (digits + rest)[..|digits|] == digits && (digits + rest)[|digits|..] == rest;
  }

  lemma ScannedIsSpelled(s: string) returns (before: string, digits: string, behind: string)
    requires Scan(s).Some?
    ensures IsSpelled(s, before, digits, behind, Scan(s).value.1) && ValueOf(digits) == Scan(s).value.0
  {
    var t := SkipSpaces(s);
    var n := DigitCount(t);
    before := Skipped(s);
    digits := t[..n];
    behind := Skipped(t[n..]);
    assert t == digits + t[n..];
  }

  const SIZE_UNITS: seq<(string, nat)> :=
    [("b", 1), ("B", 1), ("kb", 1024), ("KB", 1024), ("mb", 1048576), ("MB", 1048576), ("gb", 1073741824),
     ("GB", 1073741824)]

  const AGE_UNITS: seq<(string, nat)> :=
    [("min", 1), ("hour", 60), ("day", 1440), ("week", 10080), ("month", 44640), ("year", 527040)]

  /** A size is parsed in every spelling, as the bytes that it says, unless its digits are no 64-bit number. */
  lemma SizeSpelled(s: string, before: string, digits: string, behind: string, i: nat)
    requires i < 8 && IsSpelled(s, before, digits, behind, SIZE_UNITS[i].0)
    ensures ValueOf(digits) >= 0x8000_0000_0000_0000 ==> ParseMaxSize(s) == None
    ensures ValueOf(digits) < 0x8000_0000_0000_0000 ==>
      ParseMaxSize(s).Some? && IsWord(ParseMaxSize(s).value, ValueOf(digits) * SIZE_UNITS[i].1)
  {
    ScanSpelled(s, before, digits, behind, SIZE_UNITS[i].0);
    WrappedIsWord(ValueOf(digits) * SIZE_UNITS[i].1);
  }

  /** Nothing else is a size. */
  lemma SizeIsSpelled(s: string) returns (before: string, digits: string, behind: string, i: nat)
    requires ParseMaxSize(s).Some?
    ensures i < 8 && IsSpelled(s, before, digits, behind, SIZE_UNITS[i].0)
  {
    before, digits, behind := ScannedIsSpelled(s);
    var unit := Scan(s).value.1;
    i := if unit == "b" then 0 else if unit == "B" then 1 else if unit == "kb" then 2 else if unit == "KB" then 3
      else if unit == "mb" then 4 else if unit == "MB" then 5 else if unit == "gb" then 6 else 7;
  }

  /** The text of a duration of so many minutes. */
  ghost predicate IsMinutes(text: string, n: int) { exists r :: SaysMinutes(text, r) && IsWord(r, n) }

  predicate SaysMinutes(text: string, r: int) { text == (if r < 0 then "-" + Decimal(-r) else Decimal(r)) + "m" }

  /** An age is parsed in every spelling, as the minutes that it says. */
  lemma AgeSpelled(s: string, before: string, digits: string, behind: string, i: nat)
    requires i < 6 && IsSpelled(s, before, digits, behind, AGE_UNITS[i].0)
    ensures ValueOf(digits) >= 0x8000_0000_0000_0000 ==> ParseMaxAge(s) == None
    ensures ValueOf(digits) < 0x8000_0000_0000_0000 ==>
      ParseMaxAge(s).Some? && IsMinutes(ParseMaxAge(s).value, ValueOf(digits) * AGE_UNITS[i].1)
  {
    ScanSpelled(s, before, digits, behind, AGE_UNITS[i].0);
    var n := ValueOf(digits) * AGE_UNITS[i].1;
    WrappedIsWord(n);
    WordMinutes(Wrapped(n), n);
    if ValueOf(digits) < LIMIT { WrappedSame(ValueOf(digits)); }
  }

  lemma WordMinutes(r: int, n: int)
    requires IsWord(r, n)
    ensures IsMinutes(Minutes(r), n)
  {
    assert SaysMinutes(Minutes(r), r);
  }

  lemma AgeIsSpelled(s: string) returns (before: string, digits: string, behind: string, i: nat)
    requires ParseMaxAge(s).Some?
    ensures i < 6 && IsSpelled(s, before, digits, behind, AGE_UNITS[i].0)
  {
    before, digits, behind := ScannedIsSpelled(s);
    var unit := Scan(s).value.1;
    i := if unit == "min" then 0 else if unit == "hour" then 1 else if unit == "day" then 2
      else if unit == "week" then 3 else if unit == "month" then 4 else 5;
  }

  /** Two spellings: spaces may be in front of the number, and the unit in small letters. */
  lemma TwoSpellings()
    ensures ParseMaxSize("10 kb") == Some(10240) && ParseMaxSize(" 210 mb") == Some(220200960)
  {
    assert "10 kb" == "" + ("10" + (" " + "kb")) && " 210 mb" == " " + ("210" + (" " + "mb"));
    ThreeDigits();
    SizeSpelled("10 kb", "", "10", " ", 2);
    SizeSpelled(" 210 mb", " ", "210", " ", 4);
    WordInRange(ParseMaxSize("10 kb").value, 10240);
    WordInRange(ParseMaxSize(" 210 mb").value, 220200960);
  }

  lemma ThreeDigits()
    ensures ValueOf("10") == 10 && ValueOf("210") == 210
  {
    assert "10"[..1] == "1" && "1"[..0] == "" && "210"[..2] == "21" && "21"[..1] == "2" && "2"[..0] == "";
  }

  // ----- the unit printed

  /** Sizes and ages are printed in the largest unit that loses less than one percent, or in the smallest. */
  predicate IsBestUnit(x: nat, units: seq<nat>, i: nat)
    requires i < |units| && forall k :: 0 <= k < |units| ==> units[k] > 0
  {
    && (i == 0 || 100 * (x % units[i]) < x)
    && forall k :: i < k < |units| ==> 100 * (x % units[k]) >= x
  }

  lemma SizeInBestUnit(x: nat) returns (i: nat)
    ensures i < 4 && IsBestUnit(x, [1, 1024, 1048576, 1073741824], i)
    ensures ReadableMaxSize(x) == Decimal(x / [1, 1024, 1048576, 1073741824][i]) + " " + ["B", "KB", "MB", "GB"][i]
  {
    i := if SizeUnit(x) == GIGA then 3 else if SizeUnit(x) == MEGA then 2 else if SizeUnit(x) == KILO then 1 else 0;
  }

  lemma AgeInBestUnit(x: nat) returns (i: nat)
    ensures i < 6 && IsBestUnit(x, [1, 60, 1440, 10080, 44640, 527040], i)
    ensures ReadableMaxAge(x) == Decimal(x / [1, 60, 1440, 10080, 44640, 527040][i]) + " " +
      ["min", "hour", "day", "week", "month", "year"][i]
  {
    i := if AgeUnit(x) == YEAR then 5 else if AgeUnit(x) == MONTH then 4 else if AgeUnit(x) == WEEK then 3
      else if AgeUnit(x) == DAY then 2 else if AgeUnit(x) == HOUR then 1 else 0;
  }

  lemma WrappedSame(n: nat)
    requires n < LIMIT
    ensures Wrapped(n) == n
  {
  }

  lemma Multiple(x: nat, unit: nat)
    requires unit > 0
    ensures x / unit * unit == x - x % unit && 0 <= x % unit <= x && x / unit <= x
  {
    var q := x / unit;
    assert x == unit * q + x % unit;
    assert q * unit == unit * q;
    assert q <= unit * q by { LemmaGrows(q, unit); }
  }

  lemma LemmaGrows(q: nat, unit: nat)
    requires unit > 0
    ensures q <= unit * q
  {
  }

  /** A number of the machine, taken apart and put together again by a unit. */
  lemma Rounded(x: nat, unit: nat)
    requires 0 < unit && x < LIMIT
    ensures x / unit < LIMIT && x / unit * unit == x - x % unit == Wrapped(x / unit * unit)
  {
    Multiple(x, unit);
    WrappedSame(x - x % unit);
  }

  /** The unit that a size is printed in, and what is left of the size. */
  function SizeUnit(x: nat): nat {
    if Negligible(x, GIGA) then GIGA else if Negligible(x, MEGA) then MEGA else if Negligible(x, KILO) then KILO else 1
  }

  function AgeUnit(x: nat): nat {
    if Negligible(x, YEAR) then YEAR else if Negligible(x, MONTH) then MONTH else if Negligible(x, WEEK) then WEEK
    else if Negligible(x, DAY) then DAY else if Negligible(x, HOUR) then HOUR else 1
  }

  function KeptSize(x: nat): nat { x - x % SizeUnit(x) }

  function KeptAge(x: nat): nat { x - x % AgeUnit(x) }

  lemma LittleLost(x: nat, unit: nat)
    requires x > 0 && unit > 0 && (unit == 1 || Negligible(x, unit))
    ensures 0 <= x - x % unit <= x && 100 * (x - (x - x % unit)) < x
  {
    Multiple(x, unit);
  }

  function SizeName(unit: nat): string {
    if unit == GIGA then "GB" else if unit == MEGA then "MB" else if unit == KILO then "KB" else "B"
  }

  lemma SizePrinted(x: nat)
    ensures ReadableMaxSize(x) == Print(x / SizeUnit(x), SizeName(SizeUnit(x)))
  {
  }

  lemma SizeParsed(n: nat, unit: nat, y: nat)
    requires n < LIMIT && unit in {GIGA, MEGA, KILO, 1} && y == n * unit < LIMIT
    ensures ParseMaxSize(Print(n, SizeName(unit))) == Some(y)
  {
    ScanPrinted(n, SizeName(unit));
    WrappedSame(y);
  }

  /** Printed and parsed again, a size loses less than one percent, and never grows. */
  lemma SizeThereAndBack(x: nat)
    requires 0 < x < LIMIT
    ensures ParseMaxSize(ReadableMaxSize(x)) == Some(KeptSize(x))
    ensures KeptSize(x) <= x && 100 * (x - KeptSize(x)) < x
  {
    var unit := SizeUnit(x);
    Rounded(x, unit);
    LittleLost(x, unit);
    SizePrinted(x);
    SizeParsed(x / unit, unit, KeptSize(x));
  }

  function AgeName(unit: nat): string {
    if unit == YEAR then "year" else if unit == MONTH then "month" else if unit == WEEK then "week"
    else if unit == DAY then "day" else if unit == HOUR then "hour" else "min"
  }

  lemma AgePrinted(x: nat)
    ensures ReadableMaxAge(x) == Print(x / AgeUnit(x), AgeName(AgeUnit(x)))
  {
  }

  lemma AgeParsed(n: nat, unit: nat, y: nat)
    requires n < LIMIT && unit in {YEAR, MONTH, WEEK, DAY, HOUR, 1} && y == n * unit < LIMIT
    ensures ParseMaxAge(Print(n, AgeName(unit))) == Some(Minutes(y))
  {
    ScanPrinted(n, AgeName(unit));
    WrappedSame(y);
  }

  /** So does an age, counted in minutes. */
  lemma AgeThereAndBack(x: nat)
    requires 0 < x < LIMIT
    ensures ParseMaxAge(ReadableMaxAge(x)) == Some(Decimal(KeptAge(x)) + "m")
    ensures KeptAge(x) <= x && 100 * (x - KeptAge(x)) < x
  {
    var unit := AgeUnit(x);
    Rounded(x, unit);
    LittleLost(x, unit);
    AgePrinted(x);
    AgeParsed(x / unit, unit, KeptAge(x));
  }

  // ----- printed twice

  /**
   Printed a second time, a size has lost less than one percent of the first one exactly if the second
   print loses nothing more, and that is if every unit that is good enough for what is left, and larger
   than the first unit, measures it without rest.
   */
  lemma SecondPrintIff(x: nat, y: nat)
    requires 0 < x && y == KeptSize(x)
    ensures 100 * (x - KeptSize(y)) < x <==> KeptSize(y) == y
    ensures KeptSize(y) == y <==>
            (Negligible(y, GIGA) ==> y % GIGA == 0) &&
            (SizeUnit(x) < MEGA && Negligible(y, MEGA) ==> y % MEGA == 0) &&
            (SizeUnit(x) < KILO && Negligible(y, KILO) ==> y % KILO == 0)
  {
    KeptAgainIff(x, y);
    if KeptSize(y) == y {
      LittleLost(x, SizeUnit(x));
    } else {
      LargerUnit(x, y);
      LostAgain(x, y, SizeUnit(x), SizeUnit(y));
    }
  }

  lemma KeptAgainIff(x: nat, y: nat)
    requires 0 < x && y == KeptSize(x)
    ensures KeptSize(y) == y <==>
            (Negligible(y, GIGA) ==> y % GIGA == 0) &&
            (SizeUnit(x) < MEGA && Negligible(y, MEGA) ==> y % MEGA == 0) &&
            (SizeUnit(x) < KILO && Negligible(y, KILO) ==> y % KILO == 0)
  {
    KeptMeasured(x, y);
  }

  /** Where the second print loses more, its unit is larger, and was not good enough before. */
  lemma LargerUnit(x: nat, y: nat)
    requires y == KeptSize(x) && KeptSize(y) != y
    ensures SizeUnit(x) in {1, KILO, MEGA} && SizeUnit(y) in {KILO, MEGA, GIGA} && SizeUnit(x) < SizeUnit(y)
    ensures !Negligible(x, SizeUnit(y))
  {
    KeptMeasured(x, y);
  }

  /** What a larger unit does not measure was too much to lose in the first place. */
  lemma LostAgain(x: nat, y: nat, small: nat, large: nat)
    requires small in {1, KILO, MEGA} && large in {KILO, MEGA, GIGA} && small < large && y == x - x % small
    requires !Negligible(x, large)
    ensures !(100 * (x - (y - y % large)) < x)
  {
    SameRest(x, y, small, large);
  }

  /** Units that are not larger than the one a size was printed in measure what was kept. */
  lemma KeptMeasured(x: nat, y: nat)
    requires y == KeptSize(x)
    ensures forall unit :: unit in {1, KILO, MEGA, GIGA} && unit <= SizeUnit(x) ==> y % unit == 0
  {
    Multiple(x, SizeUnit(x));
    Measured(y, SizeUnit(x), x / SizeUnit(x));
  }

  /** Less of the smaller unit does not change how often the larger one is contained. */
  lemma SameRest(x: nat, y: nat, small: nat, large: nat)
    requires small in {1, KILO, MEGA} && large in {KILO, MEGA, GIGA} && small < large && y == x - x % small
    ensures y - y % large == x - x % large
  {
    if small == KILO {
      SameRestFrom(x, y, KILO, large / KILO, large);
    } else if small == MEGA {
      SameRestFrom(x, y, MEGA, large / MEGA, large);
    }
  }

  lemma SameRestFrom(x: nat, y: nat, small: nat, k: nat, large: nat)
    requires 0 < small && 0 < k && 0 < large == k * small && y == x - x % small
    ensures y - y % large == x - x % large
  {
    var q := x / small;
    Multiple(x, small);
    Multiple(q, k);
    var t := q % k;
    Spread(q / k, k, t, small);
    Scaled(t + 1, k, small);
    RestIs(y, large, q / k, t * small);
    RestIs(x, large, q / k, t * small + x % small);
  }

  lemma Spread(d: nat, k: nat, t: nat, small: nat)
    ensures (d * k + t) * small == d * (k * small) + t * small && (t + 1) * small == t * small + small
  {
  }

  lemma Scaled(a: nat, b: nat, c: nat)
    requires a <= b
    ensures a * c <= b * c
  {
  }

  lemma RestIs(v: nat, unit: nat, q: nat, rest: nat)
    requires v == q * unit + rest && rest < unit
    ensures v % unit == rest
  {
    var d := v / unit - q;
    Multiple(v, unit);
    assert v / unit * unit - q * unit == d * unit;
    if d >= 1 { Scaled(1, d, unit); }
    if d <= -1 { Scaled(1, -d, unit); }
  }

  /** A multiple of a unit is one of the smaller units. */
  lemma Measured(y: nat, unit: nat, q: nat)
    requires y == q * unit
    ensures unit == GIGA ==> y % GIGA == y % MEGA == y % KILO == 0
    ensures unit == MEGA ==> y % MEGA == y % KILO == 0
    ensures unit == KILO ==> y % KILO == 0
  {
    if unit == GIGA {
      GigaMeasured(y, q);
    } else if unit == MEGA {
      MegaMeasured(y, q);
    }
  }

  lemma MegaMeasured(y: nat, q: nat)
    requires y == q * MEGA
    ensures y % MEGA == y % KILO == 0
  {
    assert y == (1024 * q) * KILO;
  }

  lemma GigaMeasured(y: nat, q: nat)
    requires y == q * GIGA
    ensures y % GIGA == y % MEGA == y % KILO == 0
  {
    assert y == (1024 * q) * MEGA;
    MegaMeasured(y, 1024 * q);
  }

  /** One gigabyte and ten and a half megabytes are printed as 1034 MB, and those as 1 GB. */
  lemma SecondPrintLoses()
    ensures var x := GIGA + 21 * (MEGA / 2);
      KeptSize(x) == 1034 * MEGA && KeptSize(KeptSize(x)) == GIGA && !(100 * (x - GIGA) < x)
  {
  }
}
