/**
  The event form's day and time inputs (EventsManager) against the event
  schema and the server's rules.  The day input keeps only digits; the time
  input is lower-cased, stripped of spaces, given one space before "am"/"pm",
  and its first ':' becomes '.', which is the form `EventController` wants.
 */
module EventTime {
  import opened Text
  import opened Validation

  // ---------------------------------------------------------------------
  // Day of the month

  /** The event schema's day: `^\d{1,2}$`, with no range check. */
  predicate ClientDay(s: string) { 1 <= |s| <= 2 && AllDigits(s) }

  /** The day filter keeps digits only, so filtering again changes nothing. */
  lemma DayFilterIdempotent(raw: string)
    ensures AllDigits(DigitsOf(raw)) && DigitsOf(DigitsOf(raw)) == DigitsOf(raw)
  {
    DigitsOfDigits(DigitsOf(raw));
  }

  /** For a day the schema accepts, the server's `numeric|min:1|max:31` decides by value alone. */
  lemma ClientDayOnServer(s: string)
    requires ClientDay(s)
    ensures DayRule(s) <==> 1 <= DecimalValue(s) <= 31
  {
    NumericOfDigits(s);
  }

  /** "0" and "32" pass the schema but not the server. */
  lemma DayMismatch()
    ensures ClientDay("0") && !DayRule("0")
    ensures ClientDay("32") && !DayRule("32")
  {
    ClientDayOnServer("0");
    ClientDayOnServer("32");
    assert "32"[..1] == "3";
    assert DecimalValue("3") == 3 by { assert "3"[..0] == []; }
  }

  // ---------------------------------------------------------------------
  // Time of day: the client pattern

  /**
    One shape of the schema's `^\d{1,2}[:.]\d{2}\s?(am|pm)$/i`: an hour of `h`
    digits, ':' or '.', two digits, `gap` (0 or 1) whitespace characters,
    then am or pm in any ASCII case.
   */
  predicate ClientTimeShape(s: string, h: nat, gap: nat) {
    && gap <= 1 && |s| == h + 5 + gap
    && AllDigits(s[..h]) && (s[h] == ':' || s[h] == '.') && AllDigits(s[h + 1..h + 3])
    && (gap == 1 ==> IsJsSpace(s[h + 3]))
    && AmPm(s[h + 3 + gap..])
  }

  predicate ClientTime(s: string) {
    ClientTimeShape(s, 1, 0) || ClientTimeShape(s, 1, 1) || ClientTimeShape(s, 2, 0) || ClientTimeShape(s, 2, 1)
  }

  /** Every time the server's pattern matches, the schema's pattern matches too. */
  lemma ServerTimeIsClientTime(s: string)
    requires ServerTime(s)
    ensures ClientTime(s)
  {
    if ServerTimeShape(s, 1) {
      assert ClientTimeShape(s, 1, 1);
    } else {
      assert ClientTimeShape(s, 2, 1);
    }
  }

  /**
    The inclusion is strict: "8:00pm" and "8.00\U{A0}pm" (a no-break space) pass
    the schema and fail the server.  Conversely the server's `$` lets a final
    newline through that the schema refuses.
   */
  lemma TimeMismatch()
    ensures ClientTime("8:00pm") && !TimeRule("8:00pm")
    ensures ClientTime("8.00\U{A0}pm") && !TimeRule("8.00\U{A0}pm")
    ensures TimeRule("8.00 pm\n") && !ClientTime("8.00 pm\n")
  {
    assert ClientTimeShape("8:00pm", 1, 0) by {
      assert "8:00pm"[..1] == "8" && "8:00pm"[2..4] == "00" && "8:00pm"[4..] == "pm";
    }
    assert ClientTimeShape("8.00\U{A0}pm", 1, 1) by {
      var s := "8.00\U{A0}pm";
      assert s[..1] == "8" && s[2..4] == "00" && s[5..] == "pm";
    }
    var t := "8.00 pm\n";
    assert t[..|t| - 1] == "8.00 pm";
    assert ServerTimeShape("8.00 pm", 1) by {
      var u := "8.00 pm";
      assert u[..1] == "8" && u[2..4] == "00" && u[5..] == "pm";
    }
  }

  // ---------------------------------------------------------------------
  // Time of day: the input normaliser

  /** `.replace(/ /g, "")` */
  function RemoveSpaces(s: string): (r: string)
    ensures forall i :: 0 <= i < |r| ==> r[i] != ' '
  {
    if s == [] then [] else (if s[0] == ' ' then [] else [s[0]]) + RemoveSpaces(s[1..])
  }

  predicate AmPmAt(s: string, i: nat) {
    i + 2 <= |s| && (s[i..i + 2] == "am" || s[i..i + 2] == "pm")
  }

  /** `.replace(/(\d)(am|pm)/, "$1 $2")`: a space after the first digit that "am" or "pm" follows. */
  function SpaceBeforeAmPm(s: string): (r: string)
    decreases |s|
  {
    if s == [] then []
    else if IsDigit(s[0]) && AmPmAt(s, 1) then [s[0]] + " " + s[1..]
    else [s[0]] + SpaceBeforeAmPm(s[1..])
  }

  /** `.replace(/:/, ".")`: only the first ':' becomes '.'. */
  function FirstColonToDot(s: string): (r: string)
    ensures |r| == |s|
  {
    if s == [] then [] else if s[0] == ':' then "." + s[1..] else [s[0]] + FirstColonToDot(s[1..])
  }

  /** The time input's `onChange`: lower-case, drop spaces, space before am/pm, first ':' to '.'. */
  function NormaliseTime(raw: string): string {
    FirstColonToDot(SpaceBeforeAmPm(RemoveSpaces(LowerAll(raw))))
  }

  predicate NoSpace(s: string) { forall i :: 0 <= i < |s| ==> s[i] != ' ' }

  predicate NoColon(s: string) { forall i :: 0 <= i < |s| ==> s[i] != ':' }

  lemma {:induction false} RemoveSpacesAppend(a: string, b: string)
    ensures RemoveSpaces(a + b) == RemoveSpaces(a) + RemoveSpaces(b)
    decreases |a|
  {
    if a == [] {
      assert a + b == b;
    } else {
      assert (a + b)[1..] == a[1..] + b;
      RemoveSpacesAppend(a[1..], b);
    }
  }

  lemma {:induction false} RemoveSpacesKeeps(s: string)
    requires NoSpace(s)
    ensures RemoveSpaces(s) == s
    decreases |s|
  {
    if s != [] {
      RemoveSpacesKeeps(s[1..]);
    }
  }

  lemma {:induction false} RemoveSpacesDrops(s: string)
    requires forall i :: 0 <= i < |s| ==> s[i] == ' '
    ensures RemoveSpaces(s) == []
    decreases |s|
  {
    if s != [] {
      RemoveSpacesDrops(s[1..]);
    }
  }

  lemma {:induction false} ColonLater(a: string, b: string)
    requires NoColon(a)
    ensures FirstColonToDot(a + b) == a + FirstColonToDot(b)
    decreases |a|
  {
    if a == [] {
      assert a + b == b;
    } else {
      assert (a + b)[1..] == a[1..] + b;
      ColonLater(a[1..], b);
    }
  }

  lemma {:induction false} NoColonKept(s: string)
    requires NoColon(s)
    ensures FirstColonToDot(s) == s
    decreases |s|
  {
    if s != [] {
      NoColonKept(s[1..]);
    }
  }

  /** A lower-case "am" or "pm" written as two characters. */
  lemma LowerAmPm(ap: string)
    requires AmPm(ap)
    ensures var l := LowerAll(ap); (l == "am" || l == "pm") && AmPm(l)
  {
    var l := LowerAll(ap);
    if l[0] == 'a' {
      assert l == "am";
    } else {
      assert l == "pm";
    }
  }

  /** Skipping a character that the next one shows does not start a digit-then-am/pm match. */
  lemma SpaceSkip(c: char, rest: string)
    requires rest != [] && rest[0] != 'a' && rest[0] != 'p'
    ensures SpaceBeforeAmPm([c] + rest) == [c] + SpaceBeforeAmPm(rest)
  {
    var s := [c] + rest;
    assert s[1] == rest[0];
    assert !AmPmAt(s, 1);
    assert s[1..] == rest;
  }

  /** The typed time: hour digits, ':' or '.', two minute digits, spaces, am or pm. */
  predicate TypedTime(hour: string, sep: char, minutes: string, gap: string, ap: string) {
    && 1 <= |hour| <= 2 && AllDigits(hour)
    && (sep == ':' || sep == '.')
    && |minutes| == 2 && AllDigits(minutes)
    && (forall i :: 0 <= i < |gap| ==> gap[i] == ' ')
    && AmPm(ap)
  }

  /** Step one: only the am/pm letters can be upper case. */
  lemma LowerStep(hour: string, sep: char, minutes: string, gap: string, ap: string)
    requires TypedTime(hour, sep, minutes, gap, ap)
    ensures LowerAll(hour + [sep] + minutes + gap + ap) == hour + [sep] + minutes + gap + LowerAll(ap)
  {
    var front := hour + [sep] + minutes + gap;
    LowerAllAppend(front, ap);
    LowerKeeps(front);
  }

  /** Step two: the spaces go. */
  lemma SqueezeStep(hour: string, sep: char, minutes: string, gap: string, lap: string)
    requires TypedTime(hour, sep, minutes, gap, lap) && (lap == "am" || lap == "pm")
    ensures RemoveSpaces(hour + [sep] + minutes + gap + lap) == hour + [sep] + minutes + lap
  {
    var front := hour + [sep] + minutes;
    RemoveSpacesAppend(front + gap, lap);
    RemoveSpacesAppend(front, gap);
    RemoveSpacesDrops(gap);
    RemoveSpacesKeeps(front);
    RemoveSpacesKeeps(lap);
  }

  /** Step three, after the separator: the last minute digit is the one am/pm follows. */
  lemma SpaceMinutes(sep: char, minutes: string, lap: string)
    requires (sep == ':' || sep == '.') && |minutes| == 2 && AllDigits(minutes) && (lap == "am" || lap == "pm")
    ensures SpaceBeforeAmPm([sep] + minutes + lap) == [sep] + minutes + " " + lap
  {
    var tail := [minutes[1]] + lap;
    assert tail[1..3] == lap && tail[1..] == lap;
    assert IsDigit(minutes[1]) && AmPmAt(tail, 1);
    assert SpaceBeforeAmPm(tail) == [minutes[1]] + " " + lap;
    assert IsDigit(minutes[1]);
    SpaceSkip(minutes[0], tail);
    assert [minutes[0]] + tail == minutes + lap;
    assert IsDigit(minutes[0]);
    SpaceSkip(sep, minutes + lap);
    assert [sep] + (minutes + lap) == [sep] + minutes + lap;
  }

  /** A prefix with no 'a' or 'p' is passed over unchanged. */
  lemma {:induction false} SpaceSkipPrefix(pre: string, rest: string)
    requires rest != [] && rest[0] != 'a' && rest[0] != 'p'
    requires forall i :: 0 <= i < |pre| ==> pre[i] != 'a' && pre[i] != 'p'
    ensures SpaceBeforeAmPm(pre + rest) == pre + SpaceBeforeAmPm(rest)
    decreases |pre|
  {
    if pre != [] {
      var tail := pre[1..] + rest;
      var x := SpaceBeforeAmPm(rest);
      assert tail[0] != 'a' && tail[0] != 'p' by {
        if |pre| > 1 { assert tail[0] == pre[1]; } else { assert tail[0] == rest[0]; }
      }
      calc {
        SpaceBeforeAmPm(pre + rest);
        { assert pre + rest == [pre[0]] + tail; }
        SpaceBeforeAmPm([pre[0]] + tail);
        { SpaceSkip(pre[0], tail); }
        [pre[0]] + SpaceBeforeAmPm(tail);
        { SpaceSkipPrefix(pre[1..], rest); }
        [pre[0]] + (pre[1..] + x);
        { assert [pre[0]] + pre[1..] == pre; }
        pre + x;
      }
    } else {
      assert pre + rest == rest;
    }
  }

  /** Step three: a space goes in before am/pm and nowhere else. */
  lemma SpaceStep(hour: string, sep: char, minutes: string, lap: string)
    requires AllDigits(hour) && (sep == ':' || sep == '.') && |minutes| == 2 && AllDigits(minutes)
    requires lap == "am" || lap == "pm"
    ensures SpaceBeforeAmPm(hour + ([sep] + minutes + lap)) == hour + ([sep] + minutes + " " + lap)
  {
    SpaceMinutes(sep, minutes, lap);
    forall i | 0 <= i < |hour| ensures hour[i] != 'a' && hour[i] != 'p' {
      assert IsDigit(hour[i]);
    }
    SpaceSkipPrefix(hour, [sep] + minutes + lap);
  }

  lemma DigitsHaveNoColon(s: string)
    requires AllDigits(s)
    ensures NoColon(s)
  {
    forall i | 0 <= i < |s| ensures s[i] != ':' {
      assert IsDigit(s[i]);
    }
  }

  /** Step four: the separator is the first ':' if it is one. */
  lemma ColonStep(hour: string, sep: char, tail: string)
    requires NoColon(hour) && NoColon(tail) && (sep == ':' || sep == '.')
    ensures FirstColonToDot(hour + ([sep] + tail)) == hour + ("." + tail)
  {
    ColonLater(hour, [sep] + tail);
    NoColonKept(tail);
    assert ([sep] + tail)[1..] == tail;
  }

  /** The minutes, a space and am/pm hold no ':'. */
  lemma SpacedHasNoColon(minutes: string, lap: string)
    requires AllDigits(minutes) && (lap == "am" || lap == "pm")
    ensures NoColon(minutes + " " + lap)
  {
    DigitsHaveNoColon(minutes);
    var spaced := minutes + " " + lap;
    forall i | 0 <= i < |spaced| ensures spaced[i] != ':' {
      if i < |minutes| { assert spaced[i] == minutes[i]; }
      else if i > |minutes| { assert spaced[i] == lap[i - |minutes| - 1]; }
    }
  }

  /** The normalised form is what the server's time rule asks for. */
  lemma NormalisedIsServerTime(hour: string, minutes: string, lap: string)
    requires 1 <= |hour| <= 2 && AllDigits(hour) && |minutes| == 2 && AllDigits(minutes)
    requires lap == "am" || lap == "pm"
    ensures ServerTime(hour + "." + minutes + " " + lap) && TimeRule(hour + "." + minutes + " " + lap)
  {
    var result := hour + "." + minutes + " " + lap;
    var h := |hour|;
    assert result[..h] == hour && result[h + 1..h + 3] == minutes && result[h + 4..] == lap;
    assert ServerTimeShape(result, h);
  }

  /**
    Any hour, ':' or '.', minutes, any run of spaces and am/pm in any case
    normalises to `<hour>.<minutes> <am|pm>` in lower case, which the
    server's time rule accepts.
   */
  lemma NormaliseTimeForServer(hour: string, sep: char, minutes: string, gap: string, ap: string)
    requires TypedTime(hour, sep, minutes, gap, ap)
    ensures NormaliseTime(hour + [sep] + minutes + gap + ap) == hour + "." + minutes + " " + LowerAll(ap)
    ensures ServerTime(NormaliseTime(hour + [sep] + minutes + gap + ap))
    ensures TimeRule(NormaliseTime(hour + [sep] + minutes + gap + ap))
  {
    var lap := LowerAll(ap);
    LowerAmPm(ap);
    var tail := minutes + " " + lap;
    var result := hour + "." + minutes + " " + lap;
    calc {
      NormaliseTime(hour + [sep] + minutes + gap + ap);
      FirstColonToDot(SpaceBeforeAmPm(RemoveSpaces(LowerAll(hour + [sep] + minutes + gap + ap))));
      { LowerStep(hour, sep, minutes, gap, ap); }
      FirstColonToDot(SpaceBeforeAmPm(RemoveSpaces(hour + [sep] + minutes + gap + lap)));
      { SqueezeStep(hour, sep, minutes, gap, lap);
        assert hour + [sep] + minutes + lap == hour + ([sep] + minutes + lap); }
      FirstColonToDot(SpaceBeforeAmPm(hour + ([sep] + minutes + lap)));
      { SpaceStep(hour, sep, minutes, lap);
        assert [sep] + minutes + " " + lap == [sep] + tail; }
      FirstColonToDot(hour + ([sep] + tail));
      { DigitsHaveNoColon(hour);
        SpacedHasNoColon(minutes, lap);
        ColonStep(hour, sep, tail); }
      hour + ("." + tail);
      { assert hour + ("." + tail) == result; }
      result;
    }
    NormalisedIsServerTime(hour, minutes, lap);
  }

  /** The three spellings the form suggests all reach the server as "8.00 pm". */
  lemma NormaliseUpperCase(typed: string)
    requires typed == "8:00PM"
    ensures NormaliseTime(typed) == "8.00 pm"
  {
    assert typed == "8" + [':'] + "00" + "" + "PM";
    assert AmPm("PM") by { assert Lower('P') == 'p' && Lower('M') == 'm'; }
    NormaliseTimeForServer("8", ':', "00", "", "PM");
    var l := LowerAll("PM");
    assert l[0] == Lower('P') == 'p' && l[1] == Lower('M') == 'm';
    assert l == "pm";
  }

  lemma NormaliseNoSpace(typed: string, colon: string)
    requires typed == "8.00pm" && colon == "8:00 pm"
    ensures NormaliseTime(typed) == "8.00 pm"
    ensures NormaliseTime(colon) == "8.00 pm"
  {
    assert typed == "8" + ['.'] + "00" + "" + "pm";
    assert colon == "8" + [':'] + "00" + " " + "pm";
    assert LowerAll("pm") == "pm";
    NormaliseTimeForServer("8", '.', "00", "", "pm");
    NormaliseTimeForServer("8", ':', "00", " ", "pm");
  }
}
