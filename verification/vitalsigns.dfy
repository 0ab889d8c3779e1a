/**
 * The two sentences built from the session vitals: the opening vitals
 * sentence (App.tsx:24-30) and the closing tolerance sentence, which reads
 * the pain rating with `parseInt` (App.tsx:205-213).
 */
module VitalSigns {
  import opened Text
  import opened Clinical

  // ---------------------------------------------------------------------
  // Opening vitals sentence
  // ---------------------------------------------------------------------

  /** The recorded readings among blood pressure, heart rate, respiratory
      rate and oxygen saturation, labelled, in that order. */
  function Readings(v: Vitals): seq<string>
  {
    (if v.bp != "" then ["BP " + v.bp] else [])
    + (if v.hr != "" then ["HR " + v.hr] else [])
    + (if v.rr != "" then ["RR " + v.rr] else [])
    + (if v.o2 != "" then ["O2 " + v.o2 + "%"] else [])
  }

  /** The vitals sentence; empty when no reading was recorded. */
  function VitalsSentence(v: Vitals): string
  {
    var parts := Readings(v);
    if parts == [] then "" else "Baseline vitals: " + Join(parts, ", ") + "."
  }

  /** The composer's steps for the opening sentence; they realise `VitalsSentence`. */
  method BuildVitals(v: Vitals) returns (physVitals: string)
    ensures physVitals == VitalsSentence(v)
  {
    var physParts: seq<string> := [];
    if v.bp != "" {
      physParts := physParts + ["BP " + v.bp];
    }
    ghost var bp := physParts;
    if v.hr != "" {
      physParts := physParts + ["HR " + v.hr];
    }
    ghost var hr := physParts;
    if v.rr != "" {
      physParts := physParts + ["RR " + v.rr];
    }
    ghost var rr := physParts;
    if v.o2 != "" {
      physParts := physParts + ["O2 " + v.o2 + "%"];
    }
    assert hr == bp + (if v.hr != "" then ["HR " + v.hr] else []);
    assert rr == hr + (if v.rr != "" then ["RR " + v.rr] else []);
    assert physParts == rr + (if v.o2 != "" then ["O2 " + v.o2 + "%"] else []);
    assert physParts == Readings(v);
    physVitals := if |physParts| > 0 then "Baseline vitals: " + Join(physParts, ", ") + "." else "";
  }

  /** The sentence is dropped exactly when none of the four readings is
      recorded, is never blank otherwise, and never mentions pain. */
  lemma VitalsSentenceDropped(v: Vitals, pain: string)
    ensures VitalsSentence(v) == "" <==> v.bp == "" && v.hr == "" && v.rr == "" && v.o2 == ""
    ensures VitalsSentence(v) != "" ==> !IsBlank(VitalsSentence(v))
    ensures VitalsSentence(v.(pain := pain)) == VitalsSentence(v)
  {
    if Readings(v) != [] {
      var lead := "Baseline vitals: ";
      assert lead[0] == 'B';
      assert VitalsSentence(v) == lead + (Join(Readings(v), ", ") + ".");
      LeadingLetter(lead, Join(Readings(v), ", ") + ".");
    }
  }

  /** With every reading recorded the sentence lists all four, oxygen
      saturation with a percent sign. */
  lemma VitalsSentenceAll(bp: string, hr: string, rr: string, o2: string, pain: string)
    requires bp != "" && hr != "" && rr != "" && o2 != ""
    ensures VitalsSentence(Vitals(bp, hr, rr, o2, pain))
         == "Baseline vitals: " + ("BP " + bp) + ", " + ("HR " + hr) + ", " + ("RR " + rr) + ", " + ("O2 " + o2 + "%") + "."
  {
    var b, h, r, o := "BP " + bp, "HR " + hr, "RR " + rr, "O2 " + o2 + "%";
    assert Readings(Vitals(bp, hr, rr, o2, pain)) == [b, h, r, o];
    JoinFour(b, h, r, o, ", ");
  }

  lemma JoinFour(a: string, b: string, c: string, d: string, sep: string)
    ensures Join([a, b, c, d], sep) == a + sep + b + sep + c + sep + d
  {
    assert [a, b, c, d][1..] == [b, c, d];
    assert [b, c, d][1..] == [c, d];
    assert [c, d][1..] == [d];
    assert Join([c, d], sep) == c + sep + d;
    assert Join([b, c, d], sep) == b + sep + (c + sep + d);
  }

  /** Whichever reading is the only one recorded stands alone in the
      sentence, with its label (and the percent sign for oxygen saturation). */
  lemma VitalsSentenceSingle(v: Vitals)
    ensures v.bp != "" && v.hr == "" && v.rr == "" && v.o2 == "" ==>
              VitalsSentence(v) == "Baseline vitals: BP " + v.bp + "."
    ensures v.bp == "" && v.hr != "" && v.rr == "" && v.o2 == "" ==>
              VitalsSentence(v) == "Baseline vitals: HR " + v.hr + "."
    ensures v.bp == "" && v.hr == "" && v.rr != "" && v.o2 == "" ==>
              VitalsSentence(v) == "Baseline vitals: RR " + v.rr + "."
    ensures v.bp == "" && v.hr == "" && v.rr == "" && v.o2 != "" ==>
              VitalsSentence(v) == "Baseline vitals: O2 " + v.o2 + "%."
  {
    var r := Readings(v);
    if |r| == 1 {
      assert VitalsSentence(v) == "Baseline vitals: " + r[0] + ".";
    }
  }

  // ---------------------------------------------------------------------
  // parseInt
  // ---------------------------------------------------------------------

  /** The value of a digit character in bases up to 36; 36 for any other character. */
  function DigitValue(c: char): nat
  {
    if '0' <= c <= '9' then c as nat - '0' as nat
    else if 'a' <= c <= 'z' then c as nat - 'a' as nat + 10
    else if 'A' <= c <= 'Z' then c as nat - 'A' as nat + 10
    else 36
  }

  /** The length of the longest prefix of `s` made of digits of base `radix`. */
  function DigitRun(s: string, radix: nat): (n: nat)
    ensures n <= |s|
    ensures forall i :: 0 <= i < n ==> DigitValue(s[i]) < radix
    ensures n < |s| ==> DigitValue(s[n]) >= radix
  {
    if s == [] || DigitValue(s[0]) >= radix then 0 else 1 + DigitRun(s[1..], radix)
  }

  /** The number the digits of `s` denote in base `radix`. */
  function Value(s: string, radix: nat): nat
  {
    if s == [] then 0
    else Value(s[..|s| - 1], radix) * radix + DigitValue(s[|s| - 1])
  }

  /** `s` without its leading white space. */
  function TrimStart(s: string): (r: string)
    ensures |r| <= |s|
  {
    if s != [] && IsWhitespace(s[0]) then TrimStart(s[1..]) else s
  }

  /** `parseInt(s)` without a radix argument: leading white space is skipped,
      one sign is read, a "0x" or "0X" prefix selects base 16, and the
      longest run of digits after that is read; no digits gives NaN (`None`). */
  function ParseInt(s: string): Option<int>
  {
    ParseTrimmed(TrimStart(s))
  }

  /** `parseInt` after the leading white space is gone. */
  function ParseTrimmed(t: string): Option<int>
  {
    var negative := t != [] && t[0] == '-';
    var unsigned := if t != [] && (t[0] == '-' || t[0] == '+') then t[1..] else t;
    var hex := |unsigned| >= 2 && unsigned[0] == '0' && (unsigned[1] == 'x' || unsigned[1] == 'X');
    var radix := if hex then 16 else 10;
    var body := if hex then unsigned[2..] else unsigned;
    var n := DigitRun(body, radix);
    if n == 0 then None
    else
      var magnitude: int := Value(body[..n], radix);
      Some(if negative then -magnitude else magnitude)
  }

  /** The decimal numeral of a natural number. */
  function NatToString(n: nat): (s: string)
    ensures |s| >= 1
    ensures forall i :: 0 <= i < |s| ==> '0' <= s[i] <= '9'
    ensures n > 0 ==> s[0] != '0'
  {
    if n < 10 then [(n + '0' as nat) as char]
    else NatToString(n / 10) + [(n % 10 + '0' as nat) as char]
  }

  /** How a number is written into the text: "-" and the numeral of its magnitude. */
  function IntToString(n: int): string
  {
    if n < 0 then "-" + NatToString(-n) else NatToString(n)
  }

  lemma {:induction false} NatToStringValue(n: nat)
    ensures Value(NatToString(n), 10) == n
  {
    if n >= 10 {
      NatToStringValue(n / 10);
      var s := NatToString(n);
      assert s[..|s| - 1] == NatToString(n / 10);
    }
  }

  /** `parseInt` reads back every numeral the composer could write. */
  lemma ParseNumeral(n: nat)
    ensures ParseInt(NatToString(n)) == Some(n)
  {
    ParseLeadingNumeral([], n, []);
    assert [] + NatToString(n) + [] == NatToString(n);
  }

  // ---------------------------------------------------------------------
  // Closing tolerance sentence
  // ---------------------------------------------------------------------

  /** A parsed pain rating as the template literal prints it. */
  function PainText(p: Option<int>): string
  {
    match p
    case None => "NaN"
    case Some(n) => IntToString(n)
  }

  /** Whether `parseInt(pain) > 3`; NaN compares false. */
  predicate SeverePain(p: Option<int>)
  {
    p.Some? && p.value > 3
  }

  function Tolerance(pain: string): string
  {
    if pain == "" then "Patient tolerated session well."
    else
      var p := ParseInt(pain);
      if SeverePain(p) then
        "Patient tolerated session with fair endurance; pain reported at " + PainText(p) + "/10 requiring frequent rest breaks."
      else "Patient tolerated session well with pain controlled at " + PainText(p) + "/10."
  }

  /** The composer's steps for the closing sentence; they realise `Tolerance`. */
  method ComposeTolerance(pain: string) returns (tolerance: string)
    ensures tolerance == Tolerance(pain)
    ensures !IsBlank(tolerance)
  {
    tolerance := "Patient tolerated session well.";
    if pain != "" {
      var p := ParseInt(pain);
      if p.Some? && p.value > 3 {
        tolerance := "Patient tolerated session with fair endurance; pain reported at " + PainText(p) + "/10 requiring frequent rest breaks.";
      } else {
        tolerance := "Patient tolerated session well with pain controlled at " + PainText(p) + "/10.";
      }
    }
    ToleranceNotBlank(pain);
  }

  lemma ToleranceNotBlank(pain: string)
    ensures !IsBlank(Tolerance(pain))
  {
    var p := ParseInt(pain);
    var lead := "Patient tolerated session ";
    assert lead[0] == 'P';
    if pain == "" {
      var t := "Patient tolerated session well.";
      assert t[0] == 'P';
      LeadingLetter(t, []);
      assert t + [] == t;
    } else if SeverePain(p) {
      LeadingLetter(lead, "with fair endurance; pain reported at " + PainText(p) + "/10 requiring frequent rest breaks.");
    } else {
      LeadingLetter(lead, "well with pain controlled at " + PainText(p) + "/10.");
    }
  }

  /** The pain ratings the rating buttons offer, 0 to 10 in steps of two:
      0 and 2 read as controlled pain, 4 and above as fair endurance. */
  lemma ToleranceOnPainScale(n: nat)
    requires n in {0, 2, 4, 6, 8, 10}
    ensures n <= 3 ==> Tolerance(NatToString(n))
                       == "Patient tolerated session well with pain controlled at " + NatToString(n) + "/10."
    ensures n > 3 ==> Tolerance(NatToString(n))
                      == "Patient tolerated session with fair endurance; pain reported at " + NatToString(n)
                         + "/10 requiring frequent rest breaks."
  {
    ParseNumeral(n);
  }

  /** An empty rating gives the plain sentence; a rating `parseInt` reads
      as more than 3 gives the fair-endurance sentence; any other rating,
      "0" and a rating that is not a number included, gives the
      controlled-pain sentence, with "NaN" in place of a number. */
  lemma ToleranceCases(pain: string)
    ensures pain == "" ==> Tolerance(pain) == "Patient tolerated session well."
    ensures pain != "" && SeverePain(ParseInt(pain)) ==>
              Tolerance(pain) == "Patient tolerated session with fair endurance; pain reported at "
                                 + IntToString(ParseInt(pain).value) + "/10 requiring frequent rest breaks."
    ensures pain != "" && ParseInt(pain).Some? && ParseInt(pain).value <= 3 ==>
              Tolerance(pain) == "Patient tolerated session well with pain controlled at "
                                 + IntToString(ParseInt(pain).value) + "/10."
    ensures pain != "" && ParseInt(pain).None? ==>
              Tolerance(pain) == "Patient tolerated session well with pain controlled at NaN/10."
  {
  }

  /** `parseInt` gives NaN when, after the leading white space and one
      optional sign, the text is empty or does not start with a decimal
      digit, as for a word such as "mild" or "-mild"; it gives a number when
      a digit other than '0' starts it. */
  lemma ParseIntWord(s: string)
    ensures var t := TrimStart(s);
            var u := if t != [] && (t[0] == '-' || t[0] == '+') then t[1..] else t;
            u == [] || DigitValue(u[0]) >= 10 ==> ParseInt(s) == None
    ensures var t := TrimStart(s);
            var u := if t != [] && (t[0] == '-' || t[0] == '+') then t[1..] else t;
            u != [] && '1' <= u[0] <= '9' ==> ParseInt(s).Some?
  {
    var t := TrimStart(s);
    var u := if t != [] && (t[0] == '-' || t[0] == '+') then t[1..] else t;
    if u != [] && DigitValue(u[0]) < 10 {
      assert DigitRun(u, 10) >= 1;
    }
  }

  /** `parseInt` skips leading white space and stops at the first character
      that is neither a letter nor a digit, so " 7/10" reads as 7. */
  lemma ParseLeadingNumeral(ws: string, n: nat, rest: string)
    requires IsBlank(ws)
    requires rest == [] || DigitValue(rest[0]) == 36
    ensures ParseInt(ws + NatToString(n) + rest) == Some(n)
  {
    var s := NatToString(n);
    var t := s + rest;
    assert ws + s + rest == ws + t;
    assert t[0] == s[0];
    TrimBlank(ws, t);
    ParseDecimal(s, rest);
    NatToStringValue(n);
  }

  /** A decimal numeral without a leading zero, followed by a character that
      is neither a letter nor a digit (after "0" an "x" would switch to base 16). */
  lemma ParseDecimal(s: string, rest: string)
    requires |s| >= 1 && (|s| >= 2 ==> s[0] != '0')
    requires forall i :: 0 <= i < |s| ==> '0' <= s[i] <= '9'
    requires rest == [] || DigitValue(rest[0]) == 36
    ensures ParseTrimmed(s + rest) == Some(Value(s, 10))
  {
    var t := s + rest;
    assert t[0] == s[0];
    assert !(t != [] && (t[0] == '-' || t[0] == '+'));
    assert !(|t| >= 2 && t[0] == '0' && (t[1] == 'x' || t[1] == 'X')) by {
      if |t| >= 2 && t[0] == '0' {
        assert |s| == 1 && t[1] == rest[0];
      }
    }
    DigitRunPrefix(s, rest);
    assert t[..|s|] == s;
  }

  lemma TrimBlank(ws: string, t: string)
    requires IsBlank(ws) && t != [] && !IsWhitespace(t[0])
    ensures TrimStart(ws + t) == t
  {
    if ws != [] {
      assert (ws + t)[1..] == ws[1..] + t;
      TrimBlank(ws[1..], t);
    }
  }

  lemma {:induction false} DigitRunPrefix(s: string, rest: string)
    requires forall i :: 0 <= i < |s| ==> '0' <= s[i] <= '9'
    requires rest == [] || DigitValue(rest[0]) >= 10
    ensures DigitRun(s + rest, 10) == |s|
  {
    if s != [] {
      assert (s + rest)[1..] == s[1..] + rest;
      DigitRunPrefix(s[1..], rest);
    } else {
      assert s + rest == rest;
    }
  }
}
