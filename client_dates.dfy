/**
  The admin client's date strings.  Forms show `MM/DD/YYYY`; `toISODate`
  (posts.ts, news.ts) turns that into the `YYYY-MM-DD` the API stores, and the
  managers' `toDisplayDate` turns a stored date back for editing.  The date
  inputs run every keystroke through a digit mask.
 */
module ClientDates {
  import opened Wrappers
  import opened Text
  import opened Calendar
  import opened Validation

  // ---------------------------------------------------------------------
  // toISODate

  /**
    `toISODate`: "" stays "", otherwise `m/d/y` becomes `y-mm-dd`.  Without a
    second "/"-part `d.padStart` throws (None); without a third part the year
    prints as "undefined".
   */
  function ToIsoDate(display: string): (r: Option<string>)
    ensures display == [] ==> r == Some("")
    ensures display != [] ==> (r.None? <==> |Split(display, '/')| < 2)
    ensures display != [] && |Split(display, '/')| >= 3 ==>
      var parts := Split(display, '/');
      r == Some(parts[2] + "-" + PadStart2(parts[0]) + "-" + PadStart2(parts[1]))
    ensures display != [] && |Split(display, '/')| == 2 ==>
      var parts := Split(display, '/');
      r == Some("undefined" + "-" + PadStart2(parts[0]) + "-" + PadStart2(parts[1]))
  {
    if display == [] then Some("")
    else
      var parts := Split(display, '/');
      if |parts| < 2 then None
      else
        var y := if |parts| >= 3 then parts[2] else "undefined";
        Some(y + "-" + PadStart2(parts[0]) + "-" + PadStart2(parts[1]))
  }

  /** The `^\d{2}\/\d{2}\/\d{4}$` shape the post and news schemas demand. */
  predicate SlashDate(s: string) {
    |s| == 10 && AllDigits(s[..2]) && s[2] == '/' && AllDigits(s[3..5]) && s[5] == '/' && AllDigits(s[6..])
  }

  /**
    A date the schema accepts converts to the `Y-m-d` shape, and the server's
    `date_format:Y-m-d` then accepts it exactly when it names a calendar day:
    the schema checks the shape only, so "13/45/2024" reaches the server.
   */
  lemma SlashDateToIso(s: string)
    requires SlashDate(s)
    ensures ToIsoDate(s) == Some(s[6..] + "-" + s[..2] + "-" + s[3..5])
    ensures YmdRule(ToIsoDate(s).value) <==>
      ValidDate(DecimalValue(s[6..]), DecimalValue(s[..2]), DecimalValue(s[3..5]))
  {
    DigitsFree(s[..2], '/');
    DigitsFree(s[3..5], '/');
    DigitsFree(s[6..], '/');
    assert s == s[..2] + ['/'] + s[3..5] + ['/'] + s[6..];
    SplitThree(s[..2], s[3..5], s[6..], '/');
    JsLengthOfDigits(s[..2]);
    JsLengthOfDigits(s[3..5]);
    var r := s[6..] + "-" + s[..2] + "-" + s[3..5];
    assert r[..4] == s[6..] && r[5..7] == s[..2] && r[8..] == s[3..5];
  }

  lemma DigitsFree(s: string, sep: char)
    requires AllDigits(s) && !IsDigit(sep)
    ensures Free(s, sep)
  {
  }

  /** Month, day and year between slashes: the year is copied verbatim, month and day are padded to two. */
  lemma ToIsoDateOfParts(m: string, d: string, y: string)
    requires Free(m, '/') && Free(d, '/') && Free(y, '/')
    ensures ToIsoDate(m + "/" + d + "/" + y) == Some(y + "-" + PadStart2(m) + "-" + PadStart2(d))
  {
    assert m + "/" + d + "/" + y == m + ['/'] + d + ['/'] + y;
    SplitThree(m, d, y, '/');
  }

  /** With only one slash the year is JavaScript's `undefined`, printed as such. */
  lemma ToIsoDateWithoutYear(m: string, d: string)
    requires Free(m, '/') && Free(d, '/')
    ensures ToIsoDate(m + "/" + d) == Some("undefined" + "-" + PadStart2(m) + "-" + PadStart2(d))
  {
    assert m + "/" + d == m + ['/'] + d;
    SplitFirst(m, '/', d);
    SplitFree(d, '/');
  }

  /** Without any slash `d.padStart` is called on `undefined` and throws. */
  lemma ToIsoDateWithoutSlash(s: string)
    requires s != [] && Free(s, '/')
    ensures ToIsoDate(s).None?
  {
    SplitFree(s, '/');
  }

  // ---------------------------------------------------------------------
  // JavaScript's Number(string) and new Date(y, m - 1, d)

  /** What `Number(s)` gives: a whole number, NaN, or a form this model does not follow. */
  datatype Num = Num(n: nat) | NaN | OtherNumber

  /** Characters that can occur in some numeric literal `Number` reads. */
  predicate NumericChar(c: char) {
    IsDigit(c) || IsJsSpace(c) || c in "+-.eExXoObBaAcCdDfFIinty"
  }

  /**
    `Number(s)` for the strings `split` hands it: blank is 0, digits (around
    blanks) are their value, a character no numeric literal contains gives
    NaN; signs, fractions, exponents, hexadecimal and "Infinity" are not
    followed.
   */
  function JsNumber(s: string): (r: Num)
    ensures JsTrim(s) == [] ==> r == Num(0)
    ensures JsTrim(s) != [] && AllDigits(JsTrim(s)) ==> r == Num(DecimalValue(JsTrim(s)))
  {
    var t := JsTrim(s);
    if t == [] then Num(0)
    else if AllDigits(t) then Num(DecimalValue(t))
    else if exists i :: 0 <= i < |s| && !NumericChar(s[i]) then NaN
    else OtherNumber
  }

  /** `Number(parts[i])`, where a missing part is `undefined` and reads as NaN. */
  function NumberAt(parts: seq<string>, i: nat): Num {
    if i < |parts| then JsNumber(parts[i]) else NaN
  }

  predicate Falsy(x: Num) { x == NaN || x == Num(0) }

  /** `new Date(y, ...)` reads a year 0..99 as 1900..1999. */
  function FullYear(y: nat): (fy: nat)
    ensures y >= 100 ==> fy == y
    ensures y < 100 ==> fy == 1900 + y
  {
    if y < 100 then 1900 + y else y
  }

  /** The first year whose dates a JavaScript `Date` cannot all hold. */
  const DateYearLimit: nat := 275760

  /** A display string, or a case the model does not follow (Date's rollover of out-of-range parts). */
  datatype Shown = Shown(text: string) | Unmodelled

  /**
    `toDisplayDate` of PostsManager: "" for "" and for a missing, zero or
    non-numeric part; otherwise `MM/DD/YYYY` from `new Date(y, m - 1, d)`.
    Parts the Date would roll over (month 13, February 30) are Unmodelled.
   */
  function PostsDisplayDate(iso: string): (r: Shown)
    ensures iso == [] ==> r == Shown("")
    ensures r.Shown? && r.text != [] ==> |Split(r.text, '/')| == 3
  {
    if iso == [] then Shown("")
    else
      var parts := Split(iso, '-');
      DateOfParts(NumberAt(parts, 0), NumberAt(parts, 1), NumberAt(parts, 2))
  }

  /** `new Date(y, m - 1, d)` shown as `MM/DD/YYYY`, with "" for a zero or NaN part. */
  function DateOfParts(y: Num, m: Num, d: Num): (r: Shown)
    ensures Falsy(y) || Falsy(m) || Falsy(d) ==> r == Shown("")
    ensures r.Shown? && r.text != [] ==> |Split(r.text, '/')| == 3
  {
    if Falsy(y) || Falsy(m) || Falsy(d) then Shown("")
    else if !(y.Num? && m.Num? && d.Num?) then Unmodelled
    else
      var fy := FullYear(y.n);
      if 1 <= m.n <= 12 && d.n <= DaysInMonth(fy, m.n) && fy < DateYearLimit then
        SlashJoin(PadStart2(Decimal(m.n)), PadStart2(Decimal(d.n)), Decimal(fy))
      else Unmodelled
  }

  function SlashJoin(a: string, b: string, c: string): (r: Shown)
    requires AllDigits(a) && AllDigits(b) && AllDigits(c)
    ensures r == Shown(a + "/" + b + "/" + c) && |Split(r.text, '/')| == 3
  {
    DigitsFree(a, '/');
    DigitsFree(b, '/');
    DigitsFree(c, '/');
    SplitThree(a, b, c, '/');
    Shown(a + "/" + b + "/" + c)
  }

  // ---------------------------------------------------------------------
  // cleanIsoDate and NewsManager's toDisplayDate

  /** `^\d{4}-\d{2}-\d{2}$` */
  predicate IsoShape(s: string) {
    |s| == 10 && AllDigits(s[..4]) && s[4] == '-' && AllDigits(s[5..7]) && s[7] == '-' && AllDigits(s[8..])
  }

  /** `cleanIsoDate`: the leading `YYYY-MM-DD`, or the input when it does not start with one. */
  function CleanIsoDate(s: string): (r: string)
    ensures |s| >= 10 && IsoShape(s[..10]) ==> r == s[..10]
    ensures !(|s| >= 10 && IsoShape(s[..10])) ==> r == s
  {
    if |s| >= 10 && IsoShape(s[..10]) then s[..10] else s
  }

  /** Cleaning twice is cleaning once. */
  lemma CleanIsoDateIdempotent(s: string)
    ensures CleanIsoDate(CleanIsoDate(s)) == CleanIsoDate(s)
  {
    var c := CleanIsoDate(s);
    if |s| >= 10 && IsoShape(s[..10]) {
      assert c[..10] == c;
    }
  }

  /**
    `toDisplayDate` of NewsManager: "" for "", "Invalid Date" when the cleaned
    value is not `YYYY-MM-DD` or its month or day is out of range, else the
    local month, day and year of `<date>T12:00:00Z`.  The browser's UTC offset
    is a parameter: within [-12h, +12h) noon UTC falls on the same local
    date; a day past the month's end, or a larger offset, is Unmodelled.
   */
  function NewsDisplayDate(iso: string, offsetMinutes: int): (r: Shown)
    ensures iso == [] ==> r == Shown("")
    ensures iso != [] && !IsoShape(CleanIsoDate(iso)) ==> r == Shown("Invalid Date")
  {
    if iso == [] then Shown("")
    else
      var c := CleanIsoDate(iso);
      if !IsoShape(c) then Shown("Invalid Date")
      else
        var y, m, d := DecimalValue(c[..4]), DecimalValue(c[5..7]), DecimalValue(c[8..]);
        if !(1 <= m <= 12 && 1 <= d <= 31) then Shown("Invalid Date")
        else if d > DaysInMonth(y, m) || !(-720 <= offsetMinutes < 720) then Unmodelled
        else SlashJoin(PadStart2(Decimal(m)), PadStart2(Decimal(d)), Decimal(y))
  }

  // ---------------------------------------------------------------------
  // Round trips

  /** A two-digit field with a non-zero value prints back as itself through `String` and `padStart(2, "0")`. */
  lemma PadBack(s: string)
    requires |s| == 2 && AllDigits(s) && DecimalValue(s) >= 1
    ensures PadStart2(Decimal(DecimalValue(s))) == s
  {
    var a := s[..1];
    assert a[..0] == [] && a[0] == s[0];
    assert DecimalValue(a) == DigitValue(s[0]);
    assert s[..|s| - 1] == a;
    assert DecimalValue(s) == 10 * DigitValue(s[0]) + DigitValue(s[1]);
    if s[0] == '0' {
      var v := DecimalValue(s);
      assert v == DigitValue(s[1]);
      assert Decimal(v) == [s[1]];
      assert JsLength([s[1]]) == 1;
      assert "0" + [s[1]] == s;
    } else {
      DecimalOfValue(s);
      JsLengthOfDigits(s);
    }
  }

  /** A four-digit year without a leading zero is 1000..9999 and prints back as itself. */
  lemma YearBack(s: string)
    requires |s| == 4 && AllDigits(s) && s[0] != '0'
    ensures 1000 <= DecimalValue(s) < 10000 && Decimal(DecimalValue(s)) == s
  {
    DecimalOfValue(s);
    DecimalLength(DecimalValue(s));
  }

  lemma NumberOfDigits(s: string)
    requires AllDigits(s) && s != []
    ensures JsNumber(s) == Num(DecimalValue(s))
  {
    assert JsTrim(s) == s;
  }

  lemma IsoSplit(iso: string)
    requires IsoShape(iso)
    ensures Split(iso, '-') == [iso[..4], iso[5..7], iso[8..]]
  {
    DigitsFree(iso[..4], '-');
    DigitsFree(iso[5..7], '-');
    DigitsFree(iso[8..], '-');
    assert iso == iso[..4] + ['-'] + iso[5..7] + ['-'] + iso[8..];
    SplitThree(iso[..4], iso[5..7], iso[8..], '-');
  }

  /** Two, two and four digits joined by slashes have the schema's shape, and split back into those parts. */
  lemma SlashParts(mm: string, dd: string, yyyy: string)
    requires |mm| == 2 && |dd| == 2 && |yyyy| == 4 && AllDigits(mm) && AllDigits(dd) && AllDigits(yyyy)
    ensures var s := mm + "/" + dd + "/" + yyyy;
      SlashDate(s) && s[..2] == mm && s[3..5] == dd && s[6..] == yyyy
  {
    var s := mm + "/" + dd + "/" + yyyy;
    assert s[..2] == mm;
    assert s[3..5] == dd;
    assert s[6..] == yyyy;
  }

  /** Shown as `MM/DD/YYYY` and converted back, a stored date comes back unchanged. */
  lemma DisplayBack(iso: string)
    requires IsoShape(iso)
    ensures ToIsoDate(iso[5..7] + "/" + iso[8..] + "/" + iso[..4]) == Some(iso)
  {
    var y, m, d := iso[..4], iso[5..7], iso[8..];
    SlashParts(m, d, y);
    SlashDateToIso(m + "/" + d + "/" + y);
    IsoParts(iso);
  }

  lemma IsoParts(iso: string)
    requires |iso| == 10 && iso[4] == '-' && iso[7] == '-'
    ensures iso == iso[..4] + "-" + iso[5..7] + "-" + iso[8..]
  {
    calc {
      iso;
      iso[..4] + iso[4..];
      { assert iso[4..] == "-" + iso[5..]; }
      iso[..4] + ("-" + iso[5..]);
      { assert iso[5..] == iso[5..7] + "-" + iso[8..]; }
      iso[..4] + "-" + iso[5..7] + "-" + iso[8..];
    }
  }

  /**
    PostsManager's `toDisplayDate` followed by `toISODate` gives back every
    stored date that names a calendar day in the years 1000..9999.
   */
  lemma PostsRoundTrip(iso: string)
    requires YmdRule(iso) && iso[0] != '0'
    ensures PostsDisplayDate(iso) == Shown(iso[5..7] + "/" + iso[8..] + "/" + iso[..4])
    ensures ToIsoDate(PostsDisplayDate(iso).text) == Some(iso)
  {
    PostsDisplayOfIso(iso);
    PadBack(iso[5..7]);
    PadBack(iso[8..]);
    YearBack(iso[..4]);
    DisplayBack(iso);
  }

  lemma PostsDisplayOfIso(iso: string)
    requires YmdRule(iso) && iso[0] != '0'
    ensures var y, m, d := DecimalValue(iso[..4]), DecimalValue(iso[5..7]), DecimalValue(iso[8..]);
      PostsDisplayDate(iso) == Shown(PadStart2(Decimal(m)) + "/" + PadStart2(Decimal(d)) + "/" + Decimal(y))
  {
    YearBack(iso[..4]);
    PostsDisplayOfYear(iso);
  }

  /** A stored date of a year from 100 on is shown through its own year, month and day. */
  lemma PostsDisplayOfYear(iso: string)
    requires YmdRule(iso) && 100 <= DecimalValue(iso[..4])
    ensures var y, m, d := DecimalValue(iso[..4]), DecimalValue(iso[5..7]), DecimalValue(iso[8..]);
      PostsDisplayDate(iso) == Shown(PadStart2(Decimal(m)) + "/" + PadStart2(Decimal(d)) + "/" + Decimal(y))
  {
    IsoSplit(iso);
    var parts := Split(iso, '-');
    var y, m, d := DecimalValue(iso[..4]), DecimalValue(iso[5..7]), DecimalValue(iso[8..]);
    NumberOfDigits(parts[0]);
    NumberOfDigits(parts[1]);
    NumberOfDigits(parts[2]);
    assert NumberAt(parts, 0) == Num(y) && NumberAt(parts, 1) == Num(m) && NumberAt(parts, 2) == Num(d);
    ValueBelow(iso[..4], 10000);
    DateOfValid(y, m, d);
  }

  /** A calendar day in 100..9999 is shown with its month, day and year. */
  lemma DateOfValid(y: nat, m: nat, d: nat)
    requires 100 <= y < 10000 && ValidDate(y, m, d)
    ensures DateOfParts(Num(y), Num(m), Num(d)) == Shown(PadStart2(Decimal(m)) + "/" + PadStart2(Decimal(d)) + "/" + Decimal(y))
  {
    assert FullYear(y) == y && y < DateYearLimit;
    assert !Falsy(Num(y)) && !Falsy(Num(m)) && !Falsy(Num(d));
  }

  /**
    Below the year 1000 the round trip loses the stored date: the year is
    shown as `getFullYear` prints it, without its leading zero, and
    `toISODate` copies it verbatim, so "0999-01-01" comes back as "999-01-01".
   */
  lemma PostsRoundTripBelow1000(iso: string)
    requires YmdRule(iso) && iso[0] == '0' && iso[1] != '0'
    ensures PostsDisplayDate(iso) == Shown(iso[5..7] + "/" + iso[8..] + "/" + iso[1..4])
    ensures ToIsoDate(PostsDisplayDate(iso).text) == Some(iso[1..])
    ensures ToIsoDate(PostsDisplayDate(iso).text) != Some(iso)
  {
    PostsDisplayBelow1000(iso);
    ShownBelow1000Back(iso);
  }

  lemma ShownBelow1000Back(iso: string)
    requires YmdRule(iso) && iso[0] == '0'
    ensures ToIsoDate(iso[5..7] + "/" + iso[8..] + "/" + iso[1..4]) == Some(iso[1..])
  {
    var y3, mm, dd := iso[1..4], iso[5..7], iso[8..];
    DigitsFree(mm, '/');
    DigitsFree(dd, '/');
    DigitsFree(y3, '/');
    ToIsoDateOfParts(mm, dd, y3);
    JsLengthOfDigits(mm);
    JsLengthOfDigits(dd);
    IsoTail(iso);
  }

  lemma IsoTail(iso: string)
    requires YmdRule(iso)
    ensures iso[1..] == iso[1..4] + "-" + iso[5..7] + "-" + iso[8..]
  {
    IsoParts(iso);
    assert iso[..4] == [iso[0]] + iso[1..4];
  }

  lemma PostsDisplayBelow1000(iso: string)
    requires YmdRule(iso) && iso[0] == '0' && iso[1] != '0'
    ensures PostsDisplayDate(iso) == Shown(iso[5..7] + "/" + iso[8..] + "/" + iso[1..4])
  {
    var y := YearBelow1000(iso);
    PostsDisplayOfYear(iso);
    PadBack(iso[5..7]);
    PadBack(iso[8..]);
  }

  /** A year "0" + three digits not starting with 0 is 100..999 and prints as those three digits. */
  lemma YearBelow1000(iso: string) returns (y: nat)
    requires YmdRule(iso) && iso[0] == '0' && iso[1] != '0'
    ensures y == DecimalValue(iso[..4]) == DecimalValue(iso[1..4])
    ensures 100 <= y < 1000 && Decimal(y) == iso[1..4]
  {
    var y3 := iso[1..4];
    assert iso[..4] == "0" + y3;
    LeadingZero(y3);
    DecimalOfValue(y3);
    y := DecimalValue(y3);
    DecimalLength(y);
    ValueBelow(y3, 1000);
  }

  /**
    NewsManager's `toDisplayDate` followed by `toISODate` gives back the
    cleaned stored date, for a calendar day in 1000..9999 and a UTC offset
    under twelve hours.
   */
  lemma NewsRoundTrip(stored: string, offsetMinutes: int)
    requires |stored| >= 10 && YmdRule(stored[..10]) && stored[0] != '0'
    requires -720 <= offsetMinutes < 720
    ensures NewsDisplayDate(stored, offsetMinutes).Shown?
    ensures ToIsoDate(NewsDisplayDate(stored, offsetMinutes).text) == Some(CleanIsoDate(stored))
  {
    var iso := stored[..10];
    assert CleanIsoDate(stored) == iso;
    var y, m, d := DecimalValue(iso[..4]), DecimalValue(iso[5..7]), DecimalValue(iso[8..]);
    calc {
      NewsDisplayDate(stored, offsetMinutes);
      { assert ValidDate(y, m, d); }
      SlashJoin(PadStart2(Decimal(m)), PadStart2(Decimal(d)), Decimal(y));
      { YearBack(iso[..4]); PadBack(iso[5..7]); PadBack(iso[8..]); }
      Shown(iso[5..7] + "/" + iso[8..] + "/" + iso[..4]);
    }
    DisplayBack(iso);
  }

  // ---------------------------------------------------------------------
  // The date input mask

  /** The first eight digits: `.slice(0, 8)` of the digit string. */
  function FirstEight(s: string): (r: string)
    ensures |r| <= 8 && |r| <= |s| && r == s[..|r|]
    ensures |s| <= 8 ==> r == s
  {
    if |s| <= 8 then s else s[..8]
  }

  /** Slashes after the second and the fourth digit, each only when more digits follow. */
  function Slashed(v: string): string
    requires |v| <= 8
  {
    if |v| > 4 then v[..2] + "/" + v[2..4] + "/" + v[4..]
    else if |v| > 2 then v[..2] + "/" + v[2..]
    else v
  }

  lemma SlashedDigits(v: string)
    requires AllDigits(v) && |v| <= 8
    ensures DigitsOf(Slashed(v)) == v
  {
    if |v| > 4 {
      SlashedDigitsTwo(v[..2], v[2..4], v[4..]);
      assert v[..2] + v[2..4] + v[4..] == v;
    } else if |v| > 2 {
      SlashedDigitsOne(v[..2], v[2..]);
      assert v[..2] + v[2..] == v;
    } else {
      DigitsOfDigits(v);
    }
  }

  /** The slash the mask inserts is not a digit. */
  lemma SlashDropped()
    ensures DigitsOf("/") == []
  {
    var slash := "/";
    assert !IsDigit(slash[0]) && slash[1..] == [];
  }

  lemma SlashedDigitsOne(a: string, b: string)
    requires AllDigits(a) && AllDigits(b)
    ensures DigitsOf(a + "/" + b) == a + b
  {
    calc {
      DigitsOf(a + "/" + b);
      { DigitsOfAppend(a + "/", b); }
      DigitsOf(a + "/") + DigitsOf(b);
      { DigitsOfAppend(a, "/"); }
      DigitsOf(a) + DigitsOf("/") + DigitsOf(b);
      { SlashDropped(); DigitsOfDigits(a); DigitsOfDigits(b); }
      a + [] + b;
      { assert a + [] == a; }
      a + b;
    }
  }

  lemma SlashedDigitsTwo(a: string, b: string, c: string)
    requires AllDigits(a) && AllDigits(b) && AllDigits(c)
    ensures DigitsOf(a + "/" + b + "/" + c) == a + b + c
  {
    calc {
      DigitsOf(a + "/" + b + "/" + c);
      { DigitsOfAppend(a + "/" + b + "/", c); }
      DigitsOf(a + "/" + b + "/") + DigitsOf(c);
      { DigitsOfAppend(a + "/" + b, "/"); }
      DigitsOf(a + "/" + b) + DigitsOf("/") + DigitsOf(c);
      { SlashedDigitsOne(a, b); SlashDropped(); DigitsOfDigits(c); }
      a + b + [] + c;
      { assert a + b + [] == a + b; }
      a + b + c;
    }
  }

  /**
    The MM/DD/YYYY mask of PostsManager and NewsManager: keep at most eight
    digits, then put "/" after the second (when more follow) and after the
    fourth (when more follow).
   */
  function DateMask(raw: string): (r: string)
    ensures |r| <= 10
    ensures DigitsOf(r) == FirstEight(DigitsOf(raw))
    ensures var d := FirstEight(DigitsOf(raw));
      && (|d| <= 2 ==> r == d)
      && (3 <= |d| <= 4 ==> r == d[..2] + "/" + d[2..])
      && (|d| >= 5 ==> r == d[..2] + "/" + d[2..4] + "/" + d[4..])
  {
    var v := FirstEight(DigitsOf(raw));
    SlashedDigits(v);
    Slashed(v)
  }

  /** Masking a masked value changes nothing. */
  lemma MaskIdempotent(raw: string)
    ensures DateMask(DateMask(raw)) == DateMask(raw)
  {
    var v := FirstEight(DigitsOf(raw));
    assert FirstEight(DigitsOf(DateMask(raw))) == v;
  }

  /** The mask's output satisfies the schema's `MM/DD/YYYY` shape exactly when eight digits were typed. */
  lemma MaskShape(raw: string)
    ensures SlashDate(DateMask(raw)) <==> |DigitsOf(raw)| >= 8
  {
    var v := FirstEight(DigitsOf(raw));
    var r := DateMask(raw);
    if |DigitsOf(raw)| >= 8 {
      assert r[..2] == v[..2] && r[3..5] == v[2..4] && r[6..] == v[4..];
    }
  }
}
