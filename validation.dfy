/**
  The pieces of Laravel's validator that the content controllers use, and the
  responses the controllers answer with.  Inputs reach the validator as
  strings (multipart form fields); an absent key is `None`.
 */
module Validation {
  import opened Wrappers
  import opened Text
  import opened Calendar

  /** What the `image` and `mimes` rules learn by inspecting an upload. */
  datatype FileType = Jpeg | Png | Gif | Bmp | Svg | Webp | NotAnImage

  /** An uploaded file: its detected type and its size in bytes. */
  datatype Upload = Upload(fileType: FileType, sizeBytes: nat)

  /** The `image` entry of a request: absent, present but null, or an uploaded file. */
  datatype ImageField = NoImage | NullImage | FileImage(file: Upload)

  /** A rule list that starts with `sometimes` applies only to a key that was sent. */
  predicate IfSent(v: Option<string>, ok: bool) { v.None? || ok }

  /** The field's name when its rule fails, as the error bag reports it. */
  function Failing(field: string, ok: bool): (errs: set<string>)
    ensures errs <= {field}
    ensures field in errs <==> !ok
    ensures errs == {} <==> ok
  {
    if ok then {} else {field}
  }

  /** `required`: the key is present and its value is not blank after `trim`. */
  predicate Required(v: Option<string>) {
    v.Some? && !PhpBlank(v.value)
  }

  /**
    `image|mimes:<allowed>|max:<maxKb>` on an uploaded file.  The `image` rule
    admits jpeg, png, gif, bmp, svg and webp; every `mimes` list in the
    controllers is a subset of that, so together they admit `allowed`.
    `max` on a file compares its size in kilobytes.
   */
  predicate ImageRule(f: Upload, allowed: set<FileType>, maxKb: nat) {
    f.fileType in allowed && f.sizeBytes <= maxKb * 1024
  }

  const Months: seq<string> := ["Jan", "Feb", "Mar", "Apr", "May", "Jun", "Jul", "Aug", "Sep", "Oct", "Nov", "Dec"]

  predicate MonthName(s: string) {
    exists i :: 0 <= i < |Months| && SameIgnoringCase(s, Months[i])
  }

  /** `s` ends in a "\n" that PCRE's `$` may stand before. */
  predicate EndsInNewline(s: string) { |s| >= 1 && s[|s| - 1] == '\n' }

  /** `regex:/^(Jan|Feb|...|Dec)$/i` (PCRE: `$` also matches before a final newline). */
  predicate MonthRule(s: string) {
    MonthName(s) || (EndsInNewline(s) && MonthName(s[..|s| - 1]))
  }

  predicate AmPm(s: string) {
    |s| == 2 && (Lower(s[0]) == 'a' || Lower(s[0]) == 'p') && Lower(s[1]) == 'm'
  }

  /** `[0-9]{h}\.[0-9]{2} (am|pm)` for an hour of `h` digits, matched against all of `s`. */
  predicate ServerTimeShape(s: string, h: nat) {
    |s| == h + 6 && AllDigits(s[..h]) && s[h] == '.' && AllDigits(s[h + 1..h + 3])
    && s[h + 3] == ' ' && AmPm(s[h + 4..])
  }

  predicate ServerTime(s: string) { ServerTimeShape(s, 1) || ServerTimeShape(s, 2) }

  /** `regex:/^[0-9]{1,2}\.[0-9]{2} (am|pm)$/i` */
  predicate TimeRule(s: string) {
    ServerTime(s) || (EndsInNewline(s) && ServerTime(s[..|s| - 1]))
  }

  // ---------------------------------------------------------------------
  // `numeric`: PHP's `is_numeric`

  /** The whitespace PHP 8 allows before and after a numeric string: space, \t, \n, \r, \v, \f. */
  predicate IsNumericSpace(c: char) {
    c == ' ' || c == '\t' || c == '\n' || c == '\r' || c as int == 0x0B || c as int == 0x0C
  }

  function DropLeadingSpace(s: string): string
  {
    if s != [] && IsNumericSpace(s[0]) then DropLeadingSpace(s[1..]) else s
  }

  function DropTrailingSpace(s: string): string
  {
    if s != [] && IsNumericSpace(s[|s| - 1]) then DropTrailingSpace(s[..|s| - 1]) else s
  }

  /** A numeric string's value: minus when `negative`, `mantissa` times ten to the `scale`. */
  datatype Number = Number(negative: bool, mantissa: nat, scale: int)

  /** An optional `+` or `-` in front of `s`: whether it was a minus, and the rest. */
  function Sign(s: string): (bool, string) {
    if s != [] && (s[0] == '+' || s[0] == '-') then (s[0] == '-', s[1..]) else (false, s)
  }

  lemma DigitsConcat(a: string, b: string)
    requires AllDigits(a) && AllDigits(b)
    ensures AllDigits(a + b)
  {
    assert forall i :: 0 <= i < |a + b| ==> (a + b)[i] == if i < |a| then a[i] else b[i - |a|];
  }

  /**
    The part before the exponent: `[0-9]+`, `[0-9]+\.[0-9]*` or `[0-9]*\.[0-9]+`.
    Its digits read as one integer, and the number of digits after the point.
   */
  function DecimalBody(s: string): Option<(nat, nat)> {
    var parts := Split(s, '.');
    if |parts| == 1 && parts[0] != [] && AllDigits(parts[0]) then Some((DecimalValue(parts[0]), 0))
    else if |parts| == 2 && AllDigits(parts[0]) && AllDigits(parts[1]) && parts[0] + parts[1] != [] then
      DigitsConcat(parts[0], parts[1]);
      Some((DecimalValue(parts[0] + parts[1]), |parts[1]|))
    else None
  }

  /** The exponent after `e` or `E`: `[+-]?[0-9]+`. */
  function ExponentValue(s: string): Option<int> {
    var (negative, digits) := Sign(s);
    if digits == [] || !AllDigits(digits) then None
    else Some(if negative then -(DecimalValue(digits) as int) else DecimalValue(digits))
  }

  /**
    `is_numeric` on a string (PHP 8): optional surrounding whitespace, an
    optional sign, a decimal body and an optional `e`/`E` exponent.
    Hexadecimal, "inf" and "nan" are not numeric strings.
   */
  function ParseNumeric(s: string): Option<Number> {
    var (negative, u) := Sign(DropTrailingSpace(DropLeadingSpace(s)));
    ParseUnsigned(negative, LowerAll(u))
  }

  /** The unsigned part, lower-cased: a decimal body and an optional exponent after `e`. */
  function ParseUnsigned(negative: bool, u: string): Option<Number> {
    var halves := Split(u, 'e');
    var body := DecimalBody(halves[0]);
    if body.None? || |halves| > 2 then None
    else if |halves| == 1 then Some(Number(negative, body.value.0, -(body.value.1 as int)))
    else
      var e := ExponentValue(halves[1]);
      if e.None? then None else Some(Number(negative, body.value.0, e.value - body.value.1))
  }

  function Pow10(k: nat): (p: nat)
    ensures p >= 1
  {
    if k == 0 then 1 else 10 * Pow10(k - 1)
  }

  /** `min:lo|max:hi` on a numeric value: `lo <= value <= hi`, compared exactly. */
  predicate Between(n: Number, lo: nat, hi: nat) {
    if n.negative then n.mantissa == 0 && lo == 0
    else if n.scale >= 0 then lo <= n.mantissa * Pow10(n.scale) <= hi
    else lo * Pow10(-n.scale) <= n.mantissa <= hi * Pow10(-n.scale)
  }

  /** `numeric|min:1|max:31`: the value `is_numeric` reads lies in [1, 31]. */
  predicate DayRule(s: string) {
    var n := ParseNumeric(s);
    n.Some? && Between(n.value, 1, 31)
  }

  /** A string without surrounding whitespace, sign or capitals is read by its unsigned part alone. */
  lemma Bare(s: string)
    requires s != [] && !IsNumericSpace(s[0]) && !IsNumericSpace(s[|s| - 1])
    requires s[0] != '+' && s[0] != '-' && NoUpper(s)
    ensures ParseNumeric(s) == ParseUnsigned(false, s)
  {
    assert DropLeadingSpace(s) == s;
    assert DropTrailingSpace(s) == s;
    LowerKeeps(s);
  }

  /** A digit string is numeric, and reads as its decimal value. */
  lemma NumericOfDigits(s: string)
    requires AllDigits(s) && s != []
    ensures ParseNumeric(s) == Some(Number(false, DecimalValue(s), 0))
    ensures DayRule(s) <==> 1 <= DecimalValue(s) <= 31
  {
    Bare(s);
    UnsignedDigits(false, s);
  }

  lemma UnsignedDigits(negative: bool, s: string)
    requires AllDigits(s) && s != []
    ensures ParseUnsigned(negative, s) == Some(Number(negative, DecimalValue(s), 0))
  {
    assert Free(s, 'e');
    SplitFree(s, 'e');
    assert Free(s, '.');
    SplitFree(s, '.');
  }

  /** The body of a number with a point is all its digits, with the count after the point. */
  lemma BodyWithPoint(a: string, b: string)
    requires AllDigits(a) && AllDigits(b) && a + b != []
    ensures AllDigits(a + b)
    ensures DecimalBody(a + "." + b) == Some((DecimalValue(a + b), |b|))
  {
    DigitsConcat(a, b);
    assert Free(a, '.') && Free(b, '.');
    assert a + "." + b == a + ['.'] + b;
    SplitFirst(a, '.', b);
    SplitFree(b, '.');
  }

  /** Digits, a point and digits: no capitals, no `e`, and only digits or the point. */
  lemma PointString(a: string, b: string)
    requires AllDigits(a) && AllDigits(b)
    ensures var s := a + "." + b;
      NoUpper(s) && Free(s, 'e') && (forall i :: 0 <= i < |s| ==> s[i] == '.' || IsDigit(s[i]))
  {
    var s := a + "." + b;
    assert forall i :: 0 <= i < |s| ==> s[i] == if i < |a| then a[i] else if i == |a| then '.' else b[i - |a| - 1];
  }

  /** A number with a point reads as all its digits, scaled down by the count after the point. */
  lemma NumericWithPoint(a: string, b: string)
    requires AllDigits(a) && AllDigits(b) && a + b != []
    ensures AllDigits(a + b)
    ensures ParseNumeric(a + "." + b) == Some(Number(false, DecimalValue(a + b), -(|b| as int)))
  {
    var s := a + "." + b;
    PointString(a, b);
    Bare(s);
    SplitFree(s, 'e');
    BodyWithPoint(a, b);
  }

  /** An explicit sign in front of digits: "+" keeps the value, "-" negates it. */
  lemma SignedDigits(d: string)
    requires AllDigits(d) && d != []
    ensures ParseNumeric("+" + d) == Some(Number(false, DecimalValue(d), 0))
    ensures ParseNumeric("-" + d) == Some(Number(true, DecimalValue(d), 0))
  {
    LowerKeeps(d);
    UnsignedDigits(false, d);
    UnsignedDigits(true, d);
    Signed('+', d);
    Signed('-', d);
    assert "+" + d == ['+'] + d && "-" + d == ['-'] + d;
  }

  lemma Signed(c: char, d: string)
    requires c == '+' || c == '-'
    requires AllDigits(d) && d != []
    ensures ParseNumeric([c] + d) == ParseUnsigned(c == '-', LowerAll(d))
  {
    var p := [c] + d;
    assert p[0] == c && p[|p| - 1] == d[|d| - 1] && p[1..] == d;
    assert DropLeadingSpace(p) == p;
    assert DropTrailingSpace(p) == p;
  }

  /** A day with a plus sign is its digits' value; one with a minus sign is never in range. */
  lemma SignedDay(d: string)
    requires AllDigits(d) && d != []
    ensures DayRule("+" + d) <==> 1 <= DecimalValue(d) <= 31
    ensures !DayRule("-" + d)
  {
    SignedDigits(d);
  }

  predicate AllNumericSpace(w: string) { forall i :: 0 <= i < |w| ==> IsNumericSpace(w[i]) }

  lemma {:induction false} DropLeadingSpaces(w: string, s: string)
    requires AllNumericSpace(w) && (s != [] ==> !IsNumericSpace(s[0]))
    ensures DropLeadingSpace(w + s) == s
    decreases |w|
  {
    if w == [] {
      assert w + s == s;
    } else {
      assert (w + s)[1..] == w[1..] + s;
      DropLeadingSpaces(w[1..], s);
    }
  }

  lemma {:induction false} DropTrailingSpaces(s: string, w: string)
    requires AllNumericSpace(w) && (s != [] ==> !IsNumericSpace(s[|s| - 1]))
    ensures DropTrailingSpace(s + w) == s
    decreases |w|
  {
    if w == [] {
      assert s + w == s;
    } else {
      assert (s + w)[..|s + w| - 1] == s + w[..|w| - 1];
      DropTrailingSpaces(s, w[..|w| - 1]);
    }
  }

  /** Whitespace before and after a numeric string changes nothing. */
  lemma SurroundingSpace(before: string, s: string, after: string)
    requires AllNumericSpace(before) && AllNumericSpace(after)
    requires s != [] && !IsNumericSpace(s[0]) && !IsNumericSpace(s[|s| - 1])
    ensures ParseNumeric(before + s + after) == ParseNumeric(s)
    ensures DayRule(before + s + after) <==> DayRule(s)
  {
    assert before + s + after == before + (s + after);
    DropLeadingSpaces(before, s + after);
    DropTrailingSpaces(s, after);
    assert DropLeadingSpace(s) == s && DropTrailingSpace(s) == s;
  }

  /** Digits, `e` or `E`, and exponent digits: the value scaled up by the exponent. */
  lemma ExponentDigits(a: string, e: char, k: string)
    requires AllDigits(a) && a != [] && AllDigits(k) && k != [] && (e == 'e' || e == 'E')
    ensures ParseNumeric(a + [e] + k) == Some(Number(false, DecimalValue(a), DecimalValue(k)))
  {
    var s := a + [e] + k;
    ExponentString(a, e, k);
    assert DropLeadingSpace(s) == s;
    assert DropTrailingSpace(s) == s;
    assert Sign(s) == (false, s);
    ExponentHalves(a, k);
  }

  lemma ExponentString(a: string, e: char, k: string)
    requires AllDigits(a) && a != [] && AllDigits(k) && k != [] && (e == 'e' || e == 'E')
    ensures var s := a + [e] + k;
      s[0] == a[0] && s[|s| - 1] == k[|k| - 1] && LowerAll(s) == a + ['e'] + k
  {
    LowerAllAppend(a + [e], k);
    LowerAllAppend(a, [e]);
    assert LowerAll([e]) == ['e'];
    assert NoUpper(a) && NoUpper(k);
    LowerKeeps(a);
    LowerKeeps(k);
  }

  lemma ExponentHalves(a: string, k: string)
    requires AllDigits(a) && a != [] && AllDigits(k) && k != []
    ensures ParseUnsigned(false, a + ['e'] + k) == Some(Number(false, DecimalValue(a), DecimalValue(k)))
  {
    assert Free(a, 'e') && Free(k, 'e') && Free(a, '.');
    SplitFirst(a, 'e', k);
    SplitFree(k, 'e');
    SplitFree(a, '.');
    assert Sign(k) == (false, k);
  }

  /** "1e1" reads as ten, inside the day's range. */
  lemma DayExponentForm()
    ensures DayRule("1e1")
  {
    var one := "1";
    assert DecimalValue(one) == 1 by { assert one[..0] == []; }
    ExponentDigits(one, 'e', one);
    assert one + ['e'] + one == "1e1";
    assert Pow10(1) == 10;
  }

  /** "+7" reads as seven; "-7" is negative. */
  lemma DaySignForms()
    ensures DayRule("+7") && !DayRule("-7")
  {
    var seven := "7";
    assert DecimalValue(seven) == 7 by { assert seven[..0] == []; }
    SignedDay(seven);
    assert "+" + seven == "+7" && "-" + seven == "-7";
  }

  /** " 7 " reads as seven. */
  lemma DaySpaceForm()
    ensures DayRule(" 7 ")
  {
    var seven := "7";
    assert DecimalValue(seven) == 7 by { assert seven[..0] == []; }
    NumericOfDigits(seven);
    SurroundingSpace(" ", seven, " ");
    assert " " + seven + " " == " 7 ";
  }

  /** "31.5" is numeric but above 31. */
  lemma DayFractionAboveRange()
    ensures !DayRule("31.5")
  {
    NumericWithPoint("31", "5");
    assert "31" + "." + "5" == "31.5" && "31" + "5" == "315";
    assert DecimalValue("315") == 315 by {
      assert "315"[..2] == "31" && "31"[..1] == "3" && "3"[..0] == [];
    }
  }

  /**
    `date_format:Y-m-d`: Laravel parses with that format and accepts only when
    formatting the result gives back the input, i.e. a four-digit year, a
    two-digit month and a two-digit day that name a day of the calendar.
   */
  predicate YmdRule(s: string) {
    && |s| == 10 && AllDigits(s[..4]) && s[4] == '-' && AllDigits(s[5..7]) && s[7] == '-' && AllDigits(s[8..])
    && ValidDate(DecimalValue(s[..4]), DecimalValue(s[5..7]), DecimalValue(s[8..]))
  }

  /** A controller's answer: 200, 201, 204, 422 with the failing fields, or 404. */
  datatype Response<R> =
    | Ok(id: nat, row: R)
    | Created(id: nat, row: R)
    | NoContent
    | Invalid(fields: set<string>)
    | NotFound
  {
    function Status(): int {
      match this
      case Ok(_, _) => 200
      case Created(_, _) => 201
      case NoContent => 204
      case Invalid(_) => 422
      case NotFound => 404
    }
  }

  /**
    The ids of a table below `bound`, newest (largest auto-increment id)
    first: the order `latest()` gives when rows are created one at a time.
   */
  function NewestFirst(ids: set<nat>, bound: nat): (r: seq<nat>)
    ensures forall i :: 0 <= i < |r| ==> r[i] in ids && r[i] < bound
    ensures forall x :: x in ids && x < bound ==> x in r
    ensures forall i, j :: 0 <= i < j < |r| ==> r[i] > r[j]
    decreases bound
  {
    if bound == 0 then []
    else (if bound - 1 in ids then [bound - 1] else []) + NewestFirst(ids, bound - 1)
  }

  /** `Model::latest()->get()`: every row of the table, newest first. */
  function Latest<R>(rows: map<nat, R>, bound: nat): (r: seq<(nat, R)>)
    requires forall id :: id in rows ==> id < bound
    ensures forall i :: 0 <= i < |r| ==> r[i].0 in rows && r[i].1 == rows[r[i].0]
    ensures forall id :: id in rows ==> (id, rows[id]) in r
    ensures forall i, j :: 0 <= i < j < |r| ==> r[i].0 > r[j].0
  {
    var ids := NewestFirst(rows.Keys, bound);
    var r := seq(|ids|, i requires 0 <= i < |ids| => (ids[i], rows[ids[i]]));
    LatestFacts(rows, bound, ids, r);
    r
  }

  lemma LatestFacts<R>(rows: map<nat, R>, bound: nat, ids: seq<nat>, r: seq<(nat, R)>)
    requires forall id :: id in rows ==> id < bound
    requires ids == NewestFirst(rows.Keys, bound)
    requires |r| == |ids| && forall i :: 0 <= i < |ids| ==> ids[i] in rows && r[i] == (ids[i], rows[ids[i]])
    ensures forall i :: 0 <= i < |r| ==> r[i].0 in rows && r[i].1 == rows[r[i].0]
    ensures forall id :: id in rows ==> (id, rows[id]) in r
    ensures forall i, j :: 0 <= i < j < |r| ==> r[i].0 > r[j].0
  {
    forall id | id in rows
      ensures (id, rows[id]) in r
    {
      assert id in ids;
      var k :| 0 <= k < |ids| && ids[k] == id;
      assert r[k] == (id, rows[id]);
    }
  }
}
