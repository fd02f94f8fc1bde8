/** Classifying a raw occupancy reading as vacant or occupied.

    Two encodings exist. The LADOT OccupancyState column is text: a missing
    value (NaN) becomes "UNKNOWN", the text is upper-cased and stripped, and
    only "VACANT" means vacant (lines 162-169). The marker colouring applies a
    slightly different rule to the same column: str() of the cell,
    upper-cased, not stripped (lines 309-310). The IoT
    Sensor_Reading_Proximity column is numeric: a missing column defaults to
    1, and only a reading equal to 0 means vacant (lines 348-349). */
module Occupancy {

  datatype Status = Vacant | Occupied

  /** An OccupancyState cell: missing (NaN) or text. */
  datatype StateCell = NaN | Text(s: string)

  /** A Sensor_Reading_Proximity lookup: the column is absent, the cell is NaN,
      or it holds a number. */
  datatype ProximityCell = NoColumn | NaNReading | Reading(value: real)

  /** The characters Python's str.isspace() accepts, which str.strip() removes. */
  predicate IsSpace(c: char)
  {
    c == ' ' || '\t' <= c <= '\r' || '\U{1c}' <= c <= '\U{1f}' || c == '\U{85}' || c == '\U{a0}'
    || c == '\U{1680}' || '\U{2000}' <= c <= '\U{200a}' || c == '\U{2028}' || c == '\U{2029}'
    || c == '\U{202f}' || c == '\U{205f}' || c == '\U{3000}'
  }

  ghost predicate AllSpace(s: string)
  {
    forall i :: 0 <= i < |s| ==> IsSpace(s[i])
  }

  /** Upper-casing of one character; ASCII letters only. */
  function UpperChar(c: char): char
  {
    if 'a' <= c <= 'z' then (c as int - 32) as char else c
  }

  /** str.upper(), character by character. */
  function Upper(s: string): string
  {
    seq(|s|, i requires 0 <= i < |s| => UpperChar(s[i]))
  }

  /** str.lstrip(): drops the leading whitespace, and only that. */
  function StripLeading(s: string): string
  {
    if s != [] && IsSpace(s[0]) then StripLeading(s[1..]) else s
  }

  /** str.rstrip(): drops the trailing whitespace, and only that. */
  function StripTrailing(s: string): string
  {
    if s != [] && IsSpace(s[|s| - 1]) then StripTrailing(s[..|s| - 1]) else s
  }

  /** lstrip removes a whitespace prefix and stops at the first other character. */
  lemma {:induction false} StripLeadingShape(s: string)
    ensures var r := StripLeading(s);
            |r| <= |s| && r == s[|s| - |r|..] && AllSpace(s[..|s| - |r|]) &&
            (r == [] || !IsSpace(r[0]))
  {
    if s != [] && IsSpace(s[0]) {
      StripLeadingShape(s[1..]);
      var r := StripLeading(s);
      assert s[..|s| - |r|] == [s[0]] + s[1..][..|s| - 1 - |r|];
    }
  }

  /** rstrip removes a whitespace suffix and stops at the last other character. */
  lemma {:induction false} StripTrailingShape(s: string)
    ensures var r := StripTrailing(s);
            |r| <= |s| && r == s[..|r|] && AllSpace(s[|r|..]) &&
            (r == [] || !IsSpace(r[|r| - 1]))
  {
    if s != [] && IsSpace(s[|s| - 1]) {
      StripTrailingShape(s[..|s| - 1]);
      var r := StripTrailing(s);
      assert s[|r|..] == s[..|s| - 1][|r|..] + [s[|s| - 1]];
    }
  }

  /** str.strip(). */
  function Strip(s: string): string
  {
    StripTrailing(StripLeading(s))
  }

  /** Stripping undoes whitespace padding: a text that neither starts nor ends
      with whitespace comes back from Strip(a + t + b) for any whitespace a, b. */
  lemma StripPadded(a: string, t: string, b: string)
    requires AllSpace(a) && AllSpace(b)
    requires t == [] || (!IsSpace(t[0]) && !IsSpace(t[|t| - 1]))
    ensures Strip(a + t + b) == t
  {
    if t == [] {
      assert a + t + b == a + b;
      LeadingPadded(a + b, []);
      assert a + b + [] == a + b;
    } else {
      assert a + t + b == a + (t + b);
      LeadingPadded(a, t + b);
      TrailingPadded(t, b);
    }
  }

  lemma {:induction false} LeadingPadded(a: string, u: string)
    requires AllSpace(a) && (u == [] || !IsSpace(u[0]))
    ensures StripLeading(a + u) == u
  {
    if a != [] {
      assert (a + u)[1..] == a[1..] + u;
      LeadingPadded(a[1..], u);
    }
  }

  lemma {:induction false} TrailingPadded(t: string, b: string)
    requires AllSpace(b) && t != [] && !IsSpace(t[|t| - 1])
    ensures StripTrailing(t + b) == t
  {
    if b != [] {
      assert (t + b)[..|t + b| - 1] == t + b[..|b| - 1];
      TrailingPadded(t, b[..|b| - 1]);
    } else {
      assert t + b == t;
    }
  }

  /** Upper-casing keeps whitespace where it was, so stripping and upper-casing
      commute. */
  lemma StripUpperCommute(s: string)
    ensures Strip(Upper(s)) == Upper(Strip(s))
  {
    var t := Strip(s);
    var lead, hi := StripSplits(s);
    var a, ut, b := Upper(s[..lead]), Upper(t), Upper(s[hi..]);
    UpperSlices(s, lead, hi);
    assert Upper(s) == a + ut + b;
    UpperSpaces(s[..lead]);
    UpperSpaces(t);
    UpperSpaces(s[hi..]);
    assert AllSpace(a) && AllSpace(b);
    assert ut == [] || (!IsSpace(ut[0]) && !IsSpace(ut[|ut| - 1]));
    StripPadded(a, ut, b);
  }

  /** Strip(s) is the middle of s between a whitespace prefix and a whitespace
      suffix, and it neither starts nor ends with whitespace. */
  lemma StripSplits(s: string) returns (lead: nat, hi: nat)
    ensures lead <= hi <= |s|
    ensures Strip(s) == s[lead..hi]
    ensures AllSpace(s[..lead]) && AllSpace(s[hi..])
    ensures Strip(s) == [] || (!IsSpace(Strip(s)[0]) && !IsSpace(Strip(s)[|Strip(s)| - 1]))
  {
    var l := StripLeading(s);
    var t := StripTrailing(l);
    StripLeadingShape(s);
    StripTrailingShape(l);
    lead := |s| - |l|;
    hi := lead + |t|;
    assert l == s[lead..];
    assert t == l[..|t|];
    assert l[|t|..] == s[hi..];
    assert t == s[lead..hi];
    if t != [] {
      assert t[0] == l[0];
    }
  }

  /** Upper-casing never turns a character into whitespace or back. */
  lemma UpperSpaces(s: string)
    ensures AllSpace(Upper(s)) <==> AllSpace(s)
    ensures s != [] ==> (IsSpace(Upper(s)[0]) <==> IsSpace(s[0]))
    ensures s != [] ==> (IsSpace(Upper(s)[|s| - 1]) <==> IsSpace(s[|s| - 1]))
  {
    forall i | 0 <= i < |s|
      ensures IsSpace(Upper(s)[i]) <==> IsSpace(s[i])
    {
      UpperCharSpace(s[i]);
    }
  }

  lemma UpperCharSpace(c: char)
    ensures IsSpace(UpperChar(c)) <==> IsSpace(c)
  {
  }

  /** Upper-casing distributes over concatenation. */
  lemma UpperConcat(x: string, y: string)
    ensures Upper(x + y) == Upper(x) + Upper(y)
  {
    forall i | 0 <= i < |x| + |y|
      ensures Upper(x + y)[i] == (Upper(x) + Upper(y))[i]
    {
      if i < |x| {
        assert (x + y)[i] == x[i];
      } else {
        assert (x + y)[i] == y[i - |x|];
      }
    }
  }

  lemma UpperSlices(s: string, lo: nat, hi: nat)
    requires lo <= hi <= |s|
    ensures Upper(s) == Upper(s[..lo]) + Upper(s[lo..hi]) + Upper(s[hi..])
  {
    assert s == s[..lo] + s[lo..hi] + s[hi..];
    UpperConcat(s[..lo] + s[lo..hi], s[hi..]);
    UpperConcat(s[..lo], s[lo..hi]);
  }

  /** The normalised OccupancyState of lines 163-167: NaN becomes "UNKNOWN",
      then upper-case, then strip. */
  function NormalizeText(cell: StateCell): string
  {
    Strip(Upper(if cell.NaN? then "UNKNOWN" else cell.s))
  }

  /** The classification of line 168. */
  function ClassifyText(cell: StateCell): Status
  {
    if NormalizeText(cell) == "VACANT" then Vacant else Occupied
  }

  /** A text cell is vacant exactly when, stripped of surrounding whitespace,
      it spells "vacant" in any mix of letter case; a missing cell never is. */
  lemma ClassifyTextCharacterised(cell: StateCell)
    ensures ClassifyText(cell) == Vacant <==> cell.Text? && Upper(Strip(cell.s)) == "VACANT"
  {
    if cell.NaN? {
      MissingNormalizesToUnknown();
    } else {
      StripUpperCommute(cell.s);
      assert NormalizeText(cell) == Upper(Strip(cell.s));
    }
  }

  /** A missing value normalises to "UNKNOWN". */
  lemma MissingNormalizesToUnknown()
    ensures NormalizeText(NaN) == "UNKNOWN"
  {
    assert Upper("UNKNOWN") == "UNKNOWN";
    StripUnpadded("UNKNOWN");
  }

  /** Padding and letter case do not matter: every whitespace-padded spelling
      of "vacant" classifies as vacant. */
  lemma PaddedVacant(a: string, t: string, b: string)
    requires AllSpace(a) && AllSpace(b) && Upper(t) == "VACANT"
    ensures ClassifyText(Text(a + t + b)) == Vacant
  {
    UpperSpaces(t);
    StripPadded(a, t, b);
    StripUpperCommute(a + t + b);
  }

  /** Common spellings of "vacant": lower case, upper case, upper case with
      blanks around it, and capitalised. */
  lemma LowerCaseIsVacant()
    ensures ClassifyText(Text("vacant")) == Vacant
  {
    assert Upper("vacant") == "VACANT";
    UnpaddedVacant("vacant");
  }

  lemma UpperCaseIsVacant()
    ensures ClassifyText(Text("VACANT")) == Vacant
  {
    assert Upper("VACANT") == "VACANT";
    UnpaddedVacant("VACANT");
  }

  lemma PaddedUpperCaseIsVacant()
    ensures ClassifyText(Text(" VACANT ")) == Vacant
  {
    BlankIsSpace();
    assert Upper("VACANT") == "VACANT";
    PaddedVacant(" ", "VACANT", " ");
    assert " " + "VACANT" + " " == " VACANT ";
  }

  lemma BlankIsSpace()
    ensures AllSpace(" ")
  {
  }

  lemma CapitalisedIsVacant()
    ensures ClassifyText(Text("Vacant")) == Vacant
  {
    assert Upper("Vacant") == "VACANT";
    UnpaddedVacant("Vacant");
  }

  /** Without surrounding whitespace, a text is vacant when it upper-cases to
      "VACANT". */
  lemma UnpaddedVacant(t: string)
    requires Upper(t) == "VACANT"
    ensures ClassifyText(Text(t)) == Vacant
  {
    UpperSpaces(t);
    StripUnpadded(t);
    ClassifyTextCharacterised(Text(t));
  }

  /** "OCCUPIED", "UNKNOWN" and a missing value are occupied. */
  lemma OccupiedExamples()
    ensures ClassifyText(Text("OCCUPIED")) == Occupied
    ensures ClassifyText(Text("UNKNOWN")) == Occupied
    ensures ClassifyText(NaN) == Occupied
  {
    ClassifyTextCharacterised(Text("OCCUPIED"));
    ClassifyTextCharacterised(Text("UNKNOWN"));
    ClassifyTextCharacterised(NaN);
  }

  /** The label the marker loop of line 309 compares: str() of the cell
      (NaN prints as "nan"), upper-cased, not stripped. */
  function MarkerLabel(cell: StateCell): string
  {
    Upper(if cell.NaN? then "nan" else cell.s)
  }

  /** The marker colour rule of line 310: green (vacant) only for "VACANT". */
  function MarkerStatus(cell: StateCell): (st: Status)
    ensures st == Vacant <==> cell.Text? && Upper(cell.s) == "VACANT"
  {
    assert MarkerLabel(NaN)[0] == 'N';
    if MarkerLabel(cell) == "VACANT" then Vacant else Occupied
  }

  /** A green marker is always counted vacant in the capacity table, and the two
      rules agree on every cell without surrounding whitespace. */
  lemma MarkerAgreesWithCapacity(cell: StateCell)
    ensures MarkerStatus(cell) == Vacant ==> ClassifyText(cell) == Vacant
    ensures cell.NaN? || Strip(cell.s) == cell.s ==> MarkerStatus(cell) == ClassifyText(cell)
  {
    ClassifyTextCharacterised(cell);
    if cell.NaN? {
      assert MarkerLabel(cell)[0] == 'N';
    } else if Upper(cell.s) == "VACANT" {
      UpperSpaces(cell.s);
      StripUnpadded(cell.s);
    }
  }

  /** A text that neither starts nor ends with whitespace is its own Strip. */
  lemma StripUnpadded(t: string)
    requires t == [] || (!IsSpace(t[0]) && !IsSpace(t[|t| - 1]))
    ensures Strip(t) == t
  {
    StripPadded([], t, []);
    assert [] + t + [] == t;
  }

  /** The rules differ on padded text: " VACANT " counts as vacant in the
      capacity table but gets a red (occupied) marker. */
  lemma MarkerIgnoresPadding()
    ensures ClassifyText(Text(" VACANT ")) == Vacant
    ensures MarkerStatus(Text(" VACANT ")) == Occupied
  {
    PaddedUpperCaseIsVacant();
    assert MarkerLabel(Text(" VACANT "))[0] == ' ';
  }

  /** The proximity rule of lines 348-349: an absent column reads as 1, a NaN
      reading is unequal to 0, and a reading is vacant exactly when it is 0. */
  function ClassifyProximity(cell: ProximityCell): (st: Status)
    ensures st == Vacant <==> cell == Reading(0.0)
  {
    match cell
    case NoColumn => Occupied      // the default 1 is not 0
    case NaNReading => Occupied    // NaN == 0 is false
    case Reading(v) => if v == 0.0 then Vacant else Occupied
  }
}
