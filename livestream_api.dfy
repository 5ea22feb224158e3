/**
  The live-stream settings: a single row with id 1 in `live_streams`, read by
  `show` and overwritten by `update`.  The database speaks snake_case
  (`is_live`, `video_url`), the JSON answers camelCase (`isLive`, `videoUrl`).
  `LiveStreamRequest` coerces `isLive` to a boolean before its rules run.
 */
module LiveStreamApi {
  import opened Wrappers
  import opened Text
  import opened Validation

  const SingletonId: nat := 1

  /** A JSON request value. */
  datatype Json = JBool(b: bool) | JString(s: string) | JNumber(n: int) | JNull

  // ---------------------------------------------------------------------
  // LiveStreamRequest

  /** The characters `filter_var` trims before reading a boolean: space, tab, CR, vertical tab, LF. */
  predicate IsFilterSpace(c: char) {
    c == ' ' || c == '\t' || c == '\r' || c == '\n' || c as int == 0x0B
  }

  function FilterTrimStart(s: string): (r: string)
    ensures r == [] || !IsFilterSpace(r[0])
    ensures |r| <= |s| && r == s[|s| - |r|..]
  {
    if s != [] && IsFilterSpace(s[0]) then FilterTrimStart(s[1..]) else s
  }

  function FilterTrimEnd(s: string): (r: string)
    ensures r == [] || !IsFilterSpace(r[|r| - 1])
    ensures |r| <= |s| && r == s[..|r|]
  {
    if s != [] && IsFilterSpace(s[|s| - 1]) then FilterTrimEnd(s[..|s| - 1]) else s
  }

  function FilterTrim(s: string): string { FilterTrimEnd(FilterTrimStart(s)) }

  /** The words `FILTER_VALIDATE_BOOLEAN` reads as true, compared without ASCII case. */
  predicate TrueWord(s: string) {
    var w := LowerAll(FilterTrim(s));
    w == "1" || w == "true" || w == "on" || w == "yes"
  }

  /**
    `filter_var($v, FILTER_VALIDATE_BOOLEAN)`: true for `true`, the integer 1
    and the true words; false for everything else, an absent or null value
    included (without `FILTER_NULL_ON_FAILURE` a failure reads as false).
   */
  function FilterBool(v: Option<Json>): (b: bool)
    ensures v.None? || v == Some(JNull) ==> !b
    ensures v == Some(JBool(true)) ==> b
    ensures v == Some(JBool(false)) ==> !b
    ensures v.Some? && v.value.JString? ==> (b <==> TrueWord(v.value.s))
  {
    match v
    case None => false
    case Some(JNull) => false
    case Some(JBool(x)) => x
    case Some(JNumber(n)) => n == 1
    case Some(JString(s)) => TrueWord(s)
  }

  /** `prepareForValidation` merges the coerced `isLive` back into the request. */
  datatype StreamRequest = StreamRequest(isLive: Option<Json>, title: Option<Json>, videoUrl: Option<Json>)

  function PrepareForValidation(r: StreamRequest): (p: StreamRequest)
    ensures p.isLive == Some(JBool(FilterBool(r.isLive)))
    ensures p.title == r.title && p.videoUrl == r.videoUrl
  {
    r.(isLive := Some(JBool(FilterBool(r.isLive))))
  }

  /** `authorize`: every caller may update the settings. */
  function Authorize(): (ok: bool)
    ensures ok
  {
    true
  }

  /** `required|boolean`: present, and true, false, 0, 1, "0" or "1". */
  predicate BooleanRule(v: Option<Json>) {
    v.Some? && (v.value.JBool? || (v.value.JNumber? && 0 <= v.value.n <= 1)
                || (v.value.JString? && (v.value.s == "0" || v.value.s == "1")))
  }

  /** `required|string|max:255` */
  predicate StringRule(v: Option<Json>) {
    v.Some? && v.value.JString? && !PhpBlank(v.value.s) && |v.value.s| <= 255
  }

  /** The fields `rules()` reports as failing on the prepared request. */
  function RuleErrors(p: StreamRequest): (errs: set<string>)
    ensures errs == {} <==> BooleanRule(p.isLive) && StringRule(p.title) && StringRule(p.videoUrl)
  {
    (if BooleanRule(p.isLive) then {} else {"isLive"})
    + (if StringRule(p.title) then {} else {"title"})
    + (if StringRule(p.videoUrl) then {} else {"videoUrl"})
  }

  /** After coercion `isLive` never fails its rule: only the title and the URL can. */
  lemma CoercedIsLivePasses(r: StreamRequest)
    ensures "isLive" !in RuleErrors(PrepareForValidation(r))
    ensures RuleErrors(PrepareForValidation(r)) == {} <==> StringRule(r.title) && StringRule(r.videoUrl)
  {
  }

  /** The true words are read without regard to ASCII case. */
  lemma TrueWordIgnoresCase(s: string)
    ensures TrueWord(LowerAll(s)) == TrueWord(s)
  {
    LowerTrimStart(s);
    LowerTrimEnd(FilterTrimStart(s));
    LowerTwice(FilterTrim(s));
  }

  lemma {:induction false} LowerTwice(s: string)
    ensures LowerAll(LowerAll(s)) == LowerAll(s)
  {
    var l := LowerAll(s);
    assert forall i :: 0 <= i < |s| ==> LowerAll(l)[i] == Lower(l[i]) == Lower(Lower(s[i]));
  }

  /** Lower-casing moves only letters, so it neither makes nor removes a trimmed character. */
  lemma LowerKeepsFilterSpace(c: char)
    ensures IsFilterSpace(Lower(c)) <==> IsFilterSpace(c)
  {
  }

  lemma {:induction false} LowerTrimStart(s: string)
    ensures FilterTrimStart(LowerAll(s)) == LowerAll(FilterTrimStart(s))
    decreases |s|
  {
    if s != [] {
      var l := LowerAll(s);
      LowerKeepsFilterSpace(s[0]);
      if IsFilterSpace(s[0]) {
        calc {
          FilterTrimStart(l);
          FilterTrimStart(l[1..]);
          { assert l[1..] == LowerAll(s[1..]); }
          FilterTrimStart(LowerAll(s[1..]));
          { LowerTrimStart(s[1..]); }
          LowerAll(FilterTrimStart(s[1..]));
          LowerAll(FilterTrimStart(s));
        }
      } else {
        assert !IsFilterSpace(l[0]);
        assert FilterTrimStart(l) == l;
        assert FilterTrimStart(s) == s;
      }
    }
  }

  lemma LowerAllPrefix(s: string, n: nat)
    requires n <= |s|
    ensures LowerAll(s)[..n] == LowerAll(s[..n])
  {
    var a := LowerAll(s)[..n];
    var b := LowerAll(s[..n]);
    assert |a| == |b|;
    forall i | 0 <= i < n ensures a[i] == b[i] {
      assert s[..n][i] == s[i];
    }
  }

  lemma {:induction false} LowerTrimEnd(s: string)
    ensures FilterTrimEnd(LowerAll(s)) == LowerAll(FilterTrimEnd(s))
    decreases |s|
  {
    if s != [] {
      var l := LowerAll(s);
      var n := |s| - 1;
      LowerKeepsFilterSpace(s[n]);
      if IsFilterSpace(s[n]) {
        calc {
          FilterTrimEnd(l);
          FilterTrimEnd(l[..n]);
          { LowerAllPrefix(s, n); }
          FilterTrimEnd(LowerAll(s[..n]));
          { LowerTrimEnd(s[..n]); }
          LowerAll(FilterTrimEnd(s[..n]));
          LowerAll(FilterTrimEnd(s));
        }
      } else {
        assert !IsFilterSpace(l[n]);
        assert FilterTrimEnd(l) == l;
        assert FilterTrimEnd(s) == s;
      }
    }
  }

  // ---------------------------------------------------------------------
  // LiveStreamController

  /** The `live_streams` row, in its database names. */
  datatype StreamRow = StreamRow(is_live: bool, title: string, video_url: string)

  /** The camelCase JSON both actions answer with. */
  datatype StreamJson = StreamJson(id: nat, isLive: bool, title: string, videoUrl: string)

  /** The defaults `show` creates the row with. */
  const ShowDefaults: StreamRow := StreamRow(false, "Offline Stream", "")

  /** The column defaults of the `live_streams` migration, used by `firstOrCreate` without attributes. */
  const ColumnDefaults: StreamRow := StreamRow(false, "", "")

  /** snake_case to camelCase, for the singleton row. */
  function ToJson(row: StreamRow): (j: StreamJson)
    ensures j.id == SingletonId && j.isLive == row.is_live && j.title == row.title && j.videoUrl == row.video_url
  {
    StreamJson(SingletonId, row.is_live, row.title, row.video_url)
  }

  /** camelCase to snake_case: how `update` writes the request into the row. */
  function FromJson(j: StreamJson): (row: StreamRow)
    ensures row.is_live == j.isLive && row.title == j.title && row.video_url == j.videoUrl
  {
    StreamRow(j.isLive, j.title, j.videoUrl)
  }

  /** The renaming loses nothing, in either direction. */
  lemma RenameRoundTrip(row: StreamRow, j: StreamJson)
    ensures FromJson(ToJson(row)) == row
    ensures j.id == SingletonId ==> ToJson(FromJson(j)) == j
  {
  }

  datatype UpdateResponse = Updated(body: StreamJson) | Rejected(fields: set<string>)

  class LiveStreamController {
    /** The row with id 1, absent until the first `show` or `update`. */
    var row: Option<StreamRow>

    constructor ()
      ensures row.None?
    {
      row := None;
    }

    /** `show`: `firstOrCreate` with the offline defaults, then the camelCase view. */
    method Show() returns (body: StreamJson)
      modifies this
      ensures old(row).None? ==> row == Some(ShowDefaults)
      ensures old(row).Some? ==> row == old(row)
      ensures row.Some? && body == ToJson(row.value)
    {
      if row.None? {
        row := Some(ShowDefaults);
      }
      body := ToJson(row.value);
    }

    /**
      `update`: the request is coerced and validated first (a rejected request
      creates nothing); then the row is created with the column defaults if
      it is missing, and all three columns are overwritten.
     */
    method Update(r: StreamRequest) returns (resp: UpdateResponse)
      modifies this
      ensures var p := PrepareForValidation(r);
        && (RuleErrors(p) != {} ==> resp == Rejected(RuleErrors(p)) && row == old(row))
        && (RuleErrors(p) == {} ==>
              && row == Some(StreamRow(p.isLive.value.b, r.title.value.s, r.videoUrl.value.s))
              && resp == Updated(ToJson(row.value)))
    {
      var p := PrepareForValidation(r);
      var errs := RuleErrors(p);
      if errs != {} {
        return Rejected(errs);
      }
      if row.None? {
        row := Some(ColumnDefaults);
      }
      row := Some(row.value.(is_live := p.isLive.value.b, title := p.title.value.s, video_url := p.videoUrl.value.s));
      resp := Updated(ToJson(row.value));
    }
  }

  /** The settings a successful `update` answers with are what the next `show` answers with. */
  method UpdateThenShow(c: LiveStreamController, r: StreamRequest) returns (updated: UpdateResponse, shown: StreamJson)
    modifies c
    ensures updated.Updated? ==> shown == updated.body
    ensures updated.Updated? ==> shown.isLive == FilterBool(r.isLive)
  {
    updated := c.Update(r);
    shown := c.Show();
  }
}
