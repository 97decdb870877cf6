/**
  What the generated `init(status:)` and `rawValue` do. The two sections the
  renderer writes for them are read back, line by line, into the arms of a
  `switch`, and the switch is evaluated the way Swift evaluates one: the first
  arm that matches wins, and the `default` arm (in `init(status:)`) or the
  `unknown` arm (in `rawValue`) takes everything else.
 */
module GeneratedSwitch {
  import opened StatusRecord
  import opened Characters
  import opened Decimal
  import opened Joined
  import opened Template
  import opened StatusSequence

  /** An arm of a generated switch: `<casePrefix><key>:` on one line, `<bodyPrefix><body>` on the next. */
  datatype Arm = Arm(key: string, body: string)

  /** The indentation and keyword before the code of an arm of `init(status:)`. */
  const InitCasePrefix := "        case "
  /** What precedes the name in the body of an arm of `init(status:)`. */
  const InitBodyPrefix := "            self = ."
  /** The indentation, keyword and dot before the name of an arm of `rawValue`. */
  const RawValueCasePrefix := "        case ."
  /** What precedes the code in the body of an arm of `rawValue`. */
  const RawValueBodyPrefix := "            return "

  /** The arms of `init(status:)`: the code's literal to the record's name. */
  function InitArms(statuses: seq<Status>): (r: seq<Arm>)
    ensures |r| == |statuses|
    ensures forall i | 0 <= i < |r| :: r[i] == Arm(DecimalText(statuses[i].code), statuses[i].name)
  {
    seq(|statuses|, i requires 0 <= i < |statuses| => Arm(DecimalText(statuses[i].code), statuses[i].name))
  }

  /** The arms of `rawValue`: the record's name to the code's literal. */
  function RawValueArms(statuses: seq<Status>): (r: seq<Arm>)
    ensures |r| == |statuses|
    ensures forall i | 0 <= i < |r| :: r[i] == Arm(statuses[i].name, DecimalText(statuses[i].code))
  {
    seq(|statuses|, i requires 0 <= i < |statuses| => Arm(statuses[i].name, DecimalText(statuses[i].code)))
  }

  // ---------------------------------------------------------------------------
  // Writing and reading arms
  // ---------------------------------------------------------------------------

  /** The text of one arm: its two lines with a line break between them. */
  function ArmText(a: Arm, casePrefix: string, bodyPrefix: string): string {
    (casePrefix + a.key + ":") + "\n" + (bodyPrefix + a.body)
  }

  /** The lines of the arms, two per arm. */
  function ArmLines(arms: seq<Arm>, casePrefix: string, bodyPrefix: string): (r: seq<string>)
    ensures |r| == 2 * |arms|
  {
    if |arms| == 0 then []
    else [casePrefix + arms[0].key + ":", bodyPrefix + arms[0].body] + ArmLines(arms[1..], casePrefix, bodyPrefix)
  }

  /** `line` begins with `prefix`. */
  predicate StartsWith(line: string, prefix: string) {
    |prefix| <= |line| && line[..|prefix|] == prefix
  }

  /**
    Reads pairs of lines as arms: the first line of a pair must be the case
    prefix, a key and a colon, the second the body prefix and a body. `None`
    for an odd number of lines or a line of another shape.
   */
  function ReadArms(lines: seq<string>, casePrefix: string, bodyPrefix: string): (r: Option<seq<Arm>>)
    ensures r.Some? ==> 2 * |r.value| == |lines|
    decreases |lines|
  {
    if |lines| == 0 then Some([])
    else if |lines| == 1 then None
    else
      var head, body := lines[0], lines[1];
      if StartsWith(head, casePrefix) && |head| > |casePrefix| && head[|head| - 1] == ':' && StartsWith(body, bodyPrefix) then
        match ReadArms(lines[2..], casePrefix, bodyPrefix)
        case None => None
        case Some(rest) => Some([Arm(head[|casePrefix|..|head| - 1], body[|bodyPrefix|..])] + rest)
      else
        None
  }

  /** Reads a whole section: no arms for the empty text, otherwise its lines read as arms. */
  function ReadSection(section: string, casePrefix: string, bodyPrefix: string): Option<seq<Arm>> {
    if section == "" then Some([]) else ReadArms(Split(section, '\n'), casePrefix, bodyPrefix)
  }

  /** Reading the lines of arms gives the arms back. */
  lemma {:induction false} ReadArmLines(arms: seq<Arm>, casePrefix: string, bodyPrefix: string)
    ensures ReadArms(ArmLines(arms, casePrefix, bodyPrefix), casePrefix, bodyPrefix) == Some(arms)
    decreases |arms|
  {
    if |arms| > 0 {
      var lines := ArmLines(arms, casePrefix, bodyPrefix);
      var head := casePrefix + arms[0].key + ":";
      var body := bodyPrefix + arms[0].body;
      assert lines[2..] == ArmLines(arms[1..], casePrefix, bodyPrefix);
      ReadArmLines(arms[1..], casePrefix, bodyPrefix);
      assert head[..|casePrefix|] == casePrefix;
      assert head[|casePrefix|..|head| - 1] == arms[0].key;
      assert body[..|bodyPrefix|] == bodyPrefix;
      assert body[|bodyPrefix|..] == arms[0].body;
      assert [arms[0]] + arms[1..] == arms;
    }
  }

  /** The texts of the arms, joined by line breaks, are their lines joined by line breaks. */
  lemma {:induction false} JoinArmTexts(arms: seq<Arm>, casePrefix: string, bodyPrefix: string, texts: seq<string>)
    requires |arms| > 0 && |texts| == |arms|
    requires forall i | 0 <= i < |arms| :: texts[i] == ArmText(arms[i], casePrefix, bodyPrefix)
    ensures Join(texts, "\n") == Join(ArmLines(arms, casePrefix, bodyPrefix), "\n")
    decreases |arms|
  {
    var lines := ArmLines(arms, casePrefix, bodyPrefix);
    var head, body := lines[0], lines[1];
    if |arms| == 1 {
      assert lines == [head, body];
      assert lines[1..] == [body];
    } else {
      JoinArmTexts(arms[1..], casePrefix, bodyPrefix, texts[1..]);
      var rest := ArmLines(arms[1..], casePrefix, bodyPrefix);
      assert lines[1..] == [body] + rest;
      assert lines[1..][1..] == rest;
    }
  }

  /** Lines made of pieces free of line breaks are free of line breaks. */
  lemma {:induction false} ArmLinesFree(arms: seq<Arm>, casePrefix: string, bodyPrefix: string)
    requires Free(casePrefix, '\n') && Free(bodyPrefix, '\n')
    requires forall i | 0 <= i < |arms| :: Free(arms[i].key, '\n') && Free(arms[i].body, '\n')
    ensures forall k | 0 <= k < |ArmLines(arms, casePrefix, bodyPrefix)| :: Free(ArmLines(arms, casePrefix, bodyPrefix)[k], '\n')
    decreases |arms|
  {
    if |arms| > 0 {
      ArmLinesFree(arms[1..], casePrefix, bodyPrefix);
      var head := casePrefix + arms[0].key + ":";
      var body := bodyPrefix + arms[0].body;
      assert Free(head, '\n') by {
        forall k | 0 <= k < |head| ensures head[k] != '\n' {
          if k < |casePrefix| {
            assert head[k] == casePrefix[k];
          } else if k < |casePrefix| + |arms[0].key| {
            assert head[k] == arms[0].key[k - |casePrefix|];
          }
        }
      }
      assert Free(body, '\n') by {
        forall k | 0 <= k < |body| ensures body[k] != '\n' {
          if k < |bodyPrefix| {
            assert body[k] == bodyPrefix[k];
          } else {
            assert body[k] == arms[0].body[k - |bodyPrefix|];
          }
        }
      }
    }
  }

  /** A section written as arms whose pieces are free of line breaks reads back to those arms. */
  lemma SectionReadsBack(arms: seq<Arm>, casePrefix: string, bodyPrefix: string, texts: seq<string>)
    requires |texts| == |arms|
    requires forall i | 0 <= i < |arms| :: texts[i] == ArmText(arms[i], casePrefix, bodyPrefix)
    requires Free(casePrefix, '\n') && Free(bodyPrefix, '\n')
    requires forall i | 0 <= i < |arms| :: Free(arms[i].key, '\n') && Free(arms[i].body, '\n')
    ensures ReadSection(Join(texts, "\n"), casePrefix, bodyPrefix) == Some(arms)
  {
    if |arms| > 0 {
      var lines := ArmLines(arms, casePrefix, bodyPrefix);
      JoinArmTexts(arms, casePrefix, bodyPrefix, texts);
      ArmLinesFree(arms, casePrefix, bodyPrefix);
      SplitJoin(lines, '\n');
      ReadArmLines(arms, casePrefix, bodyPrefix);
      assert |Join(lines, "\n")| > 0;
    }
  }

  // ---------------------------------------------------------------------------
  // The two sections read back
  // ---------------------------------------------------------------------------

  /** A literal code has no line break in it. */
  lemma CodeFree(c: int)
    ensures Free(DecimalText(c), '\n')
  {
    var t := DecimalText(c);
    forall k | 0 <= k < |t| ensures t[k] != '\n' {
      assert InClass(t[k], CodeChar);
    }
  }

  /** An arm of `init(status:)` is the arm text of the code and the name. */
  lemma InitEntryIsArm(st: Status)
    ensures InitStatusEntry(st) == ArmText(Arm(DecimalText(st.code), st.name), InitCasePrefix, InitBodyPrefix)
  {
    assert ":\n            self = ." == ":" + "\n" + "            self = .";
  }

  /** An arm of `rawValue` is the arm text of the name and the code. */
  lemma RawValueEntryIsArm(st: Status)
    ensures RawValueEntry(st) == ArmText(Arm(st.name, DecimalText(st.code)), RawValueCasePrefix, RawValueBodyPrefix)
  {
    assert ":\n            return " == ":" + "\n" + "            return ";
  }

  /** No record name has a line break in it (every extracted name is made of word characters). */
  predicate SingleLineNames(statuses: seq<Status>) {
    forall i | 0 <= i < |statuses| :: Free(statuses[i].name, '\n')
  }

  /** The `initStatus` section reads back to one arm per record, in order: the code's literal, then the name. */
  lemma InitStatusReadsBack(t: Template)
    requires SingleLineNames(t.statuses)
    ensures ReadSection(InitStatus(t), InitCasePrefix, InitBodyPrefix) == Some(InitArms(t.statuses))
  {
    var arms := InitArms(t.statuses);
    var texts := Entries(t.statuses, InitStatusEntry);
    forall i | 0 <= i < |arms|
      ensures texts[i] == ArmText(arms[i], InitCasePrefix, InitBodyPrefix)
      ensures Free(arms[i].key, '\n') && Free(arms[i].body, '\n')
    {
      InitEntryIsArm(t.statuses[i]);
      CodeFree(t.statuses[i].code);
    }
    SectionReadsBack(arms, InitCasePrefix, InitBodyPrefix, texts);
  }

  /** The `rawValue` section reads back to one arm per record, in order: the name, then the code's literal. */
  lemma RawValueReadsBack(t: Template)
    requires SingleLineNames(t.statuses)
    ensures ReadSection(RawValue(t), RawValueCasePrefix, RawValueBodyPrefix) == Some(RawValueArms(t.statuses))
  {
    var arms := RawValueArms(t.statuses);
    var texts := Entries(t.statuses, RawValueEntry);
    forall i | 0 <= i < |arms|
      ensures texts[i] == ArmText(arms[i], RawValueCasePrefix, RawValueBodyPrefix)
      ensures Free(arms[i].key, '\n') && Free(arms[i].body, '\n')
    {
      RawValueEntryIsArm(t.statuses[i]);
      CodeFree(t.statuses[i].code);
    }
    SectionReadsBack(arms, RawValueCasePrefix, RawValueBodyPrefix, texts);
  }

  // ---------------------------------------------------------------------------
  // Evaluating the switches
  // ---------------------------------------------------------------------------

  /** A value of the generated enum: one of the named cases, or `unknown` carrying its code. */
  datatype OSStatusError = Named(name: string) | Unknown(code: OSStatus)

  /** `init(status:)`: the body of the first arm whose literal denotes `status`; `default` gives `unknown(status)`. */
  function EvalInit(arms: seq<Arm>, status: OSStatus): OSStatusError
    decreases |arms|
  {
    if |arms| == 0 then Unknown(status)
    else if ParseOSStatus(arms[0].key) == Some(status) then Named(arms[0].body)
    else EvalInit(arms[1..], status)
  }

  /** The code in the body of the first arm for the case `name`; `None` if no arm names it. */
  function FirstCode(arms: seq<Arm>, name: string): Option<OSStatus>
    decreases |arms|
  {
    if |arms| == 0 then None
    else if arms[0].key == name then ParseOSStatus(arms[0].body)
    else FirstCode(arms[1..], name)
  }

  /** `rawValue`: the code of the arm for a named case; the `unknown` arm returns the carried code. */
  function EvalRawValue(arms: seq<Arm>, e: OSStatusError): Option<OSStatus> {
    match e
    case Named(name) => FirstCode(arms, name)
    case Unknown(code) => Some(code)
  }

  /** Codes written by the renderer denote the record's code and no other. */
  lemma ArmDenotes(st: Status, status: OSStatus)
    ensures ParseOSStatus(DecimalText(st.code)) == Some(status) <==> st.code == status
  {
    DecimalRoundTrip(st.code);
  }

  /** The switch of `init(status:)` takes the first arm whose literal denotes the code. */
  lemma {:induction false} EvalInitFirst(arms: seq<Arm>, status: OSStatus, i: nat)
    requires i < |arms| && ParseOSStatus(arms[i].key) == Some(status)
    requires forall j | 0 <= j < i :: ParseOSStatus(arms[j].key) != Some(status)
    ensures EvalInit(arms, status) == Named(arms[i].body)
    decreases i
  {
    if i > 0 {
      var rest := arms[1..];
      forall j | 0 <= j < i - 1 ensures ParseOSStatus(rest[j].key) != Some(status) {
        assert rest[j] == arms[j + 1];
      }
      assert rest[i - 1] == arms[i];
      EvalInitFirst(rest, status, i - 1);
    }
  }

  /** `init(status:)` picks the first record with the code. */
  lemma InitFirstWins(statuses: seq<Status>, status: OSStatus, i: nat)
    requires i < |statuses| && statuses[i].code == status
    requires forall j | 0 <= j < i :: statuses[j].code != status
    ensures EvalInit(InitArms(statuses), status) == Named(statuses[i].name)
  {
    var arms := InitArms(statuses);
    forall j | 0 <= j <= i ensures ParseOSStatus(arms[j].key) == Some(statuses[j].code) {
      DecimalRoundTrip(statuses[j].code);
    }
    EvalInitFirst(arms, status, i);
  }

  /** `init(status:)` gives `unknown(status)` exactly when no record has the code. */
  lemma {:induction false} InitUnknown(statuses: seq<Status>, status: OSStatus)
    ensures EvalInit(InitArms(statuses), status) == Unknown(status) <==> forall i | 0 <= i < |statuses| :: statuses[i].code != status
    decreases |statuses|
  {
    if |statuses| > 0 {
      var arms := InitArms(statuses);
      ArmDenotes(statuses[0], status);
      assert InitArms(statuses[1..]) == arms[1..];
      InitUnknown(statuses[1..], status);
      if statuses[0].code != status {
        assert forall i | 1 <= i < |statuses| :: statuses[i].code == statuses[1..][i - 1].code;
      }
    }
  }

  /** The switch of `rawValue` takes the first arm for the case. */
  lemma {:induction false} FirstCodeFirst(arms: seq<Arm>, name: string, i: nat)
    requires i < |arms| && arms[i].key == name
    requires forall j | 0 <= j < i :: arms[j].key != name
    ensures FirstCode(arms, name) == ParseOSStatus(arms[i].body)
    decreases i
  {
    if i > 0 {
      var rest := arms[1..];
      forall j | 0 <= j < i - 1 ensures rest[j].key != name {
        assert rest[j] == arms[j + 1];
      }
      assert rest[i - 1] == arms[i];
      FirstCodeFirst(rest, name, i - 1);
    }
  }

  /** `rawValue` of a named case is the code of the first record with the name. */
  lemma RawValueFirstWins(statuses: seq<Status>, i: nat)
    requires i < |statuses|
    requires forall j | 0 <= j < i :: statuses[j].name != statuses[i].name
    ensures FirstCode(RawValueArms(statuses), statuses[i].name) == Some(statuses[i].code)
  {
    DecimalRoundTrip(statuses[i].code);
    FirstCodeFirst(RawValueArms(statuses), statuses[i].name, i);
  }

  /** Every record's name names a different record from every other's. */
  predicate UniqueNames(statuses: seq<Status>) {
    forall i, j | 0 <= i < j < |statuses| :: statuses[i].name != statuses[j].name
  }

  /** Every record's code differs from every other's. */
  predicate UniqueCodes(statuses: seq<Status>) {
    forall i, j | 0 <= i < j < |statuses| :: statuses[i].code != statuses[j].code
  }

  /** With distinct names, `rawValue` undoes `init(status:)`: every code comes back, known or unknown. */
  lemma RawValueOfInit(statuses: seq<Status>, status: OSStatus)
    requires UniqueNames(statuses)
    ensures EvalRawValue(RawValueArms(statuses), EvalInit(InitArms(statuses), status)) == Some(status)
  {
    InitUnknown(statuses, status);
    if exists i | 0 <= i < |statuses| :: statuses[i].code == status {
      var i := FirstWithCode(statuses, status);
      InitFirstWins(statuses, status, i);
      RawValueFirstWins(statuses, i);
    }
  }

  /** With distinct codes and names, `init(status:)` undoes `rawValue` on every named case. */
  lemma InitOfRawValue(statuses: seq<Status>, i: nat)
    requires UniqueNames(statuses) && UniqueCodes(statuses) && i < |statuses|
    ensures EvalRawValue(RawValueArms(statuses), Named(statuses[i].name)) == Some(statuses[i].code)
    ensures EvalInit(InitArms(statuses), statuses[i].code) == Named(statuses[i].name)
  {
    RawValueFirstWins(statuses, i);
    InitFirstWins(statuses, statuses[i].code, i);
  }

  /** The position of the first record with the code. */
  function FirstWithCode(statuses: seq<Status>, status: OSStatus): (i: nat)
    requires exists i | 0 <= i < |statuses| :: statuses[i].code == status
    ensures i < |statuses| && statuses[i].code == status
    ensures forall j | 0 <= j < i :: statuses[j].code != status
    decreases |statuses|
  {
    if statuses[0].code == status then 0
    else
      var k :| 0 <= k < |statuses| && statuses[k].code == status;
      assert statuses[1..][k - 1].code == status;
      1 + FirstWithCode(statuses[1..], status)
  }

  // ---------------------------------------------------------------------------
  // The generated code, from the rendered sections
  // ---------------------------------------------------------------------------

  /** `OSStatusError(status:)` as the rendered `initStatus` section defines it; `None` if the section cannot be read. */
  function GeneratedInit(t: Template, status: OSStatus): Option<OSStatusError> {
    match ReadSection(InitStatus(t), InitCasePrefix, InitBodyPrefix)
    case Some(arms) => Some(EvalInit(arms, status))
    case None => None
  }

  /** `rawValue` as the rendered `rawValue` section defines it; `None` if the section cannot be read or has no arm for the case. */
  function GeneratedRawValue(t: Template, e: OSStatusError): Option<OSStatus> {
    match ReadSection(RawValue(t), RawValueCasePrefix, RawValueBodyPrefix)
    case Some(arms) => EvalRawValue(arms, e)
    case None => None
  }

  /**
    The generated `init(status:)` maps a code to the case of the first record
    with that code, and to `unknown` exactly when no record has it.
   */
  lemma GeneratedInitMeaning(t: Template, status: OSStatus)
    requires SingleLineNames(t.statuses)
    ensures GeneratedInit(t, status) == Some(Unknown(status)) <==> forall i | 0 <= i < |t.statuses| :: t.statuses[i].code != status
    ensures forall i | 0 <= i < |t.statuses| && t.statuses[i].code == status && (forall j | 0 <= j < i :: t.statuses[j].code != status) ::
      GeneratedInit(t, status) == Some(Named(t.statuses[i].name))
  {
    InitStatusReadsBack(t);
    InitUnknown(t.statuses, status);
    forall i | 0 <= i < |t.statuses| && t.statuses[i].code == status && (forall j | 0 <= j < i :: t.statuses[j].code != status)
      ensures GeneratedInit(t, status) == Some(Named(t.statuses[i].name))
    {
      InitFirstWins(t.statuses, status, i);
    }
  }

  /** With distinct names, the generated `rawValue` gives back every code the generated `init(status:)` was given. */
  lemma GeneratedRoundTrip(t: Template, status: OSStatus)
    requires SingleLineNames(t.statuses) && UniqueNames(t.statuses)
    ensures GeneratedInit(t, status).Some?
    ensures GeneratedRawValue(t, GeneratedInit(t, status).value) == Some(status)
  {
    InitStatusReadsBack(t);
    RawValueReadsBack(t);
    RawValueOfInit(t.statuses, status);
  }

  /** Extracted names are made of word characters, so they fit on one line. */
  lemma ExtractedSingleLine(statuses: seq<Status>)
    requires forall i | 0 <= i < |statuses| :: Extracted(statuses[i])
    ensures SingleLineNames(statuses)
  {
    forall i, k | 0 <= i < |statuses| && 0 <= k < |statuses[i].name|
      ensures statuses[i].name[k] != '\n'
    {
      assert InClass(statuses[i].name[k], Word);
    }
  }

  /**
    From header text to generated code: for the records extracted from any
    text, rendered with any fallback description, the generated `rawValue`
    gives back every code the generated `init(status:)` was given, provided no
    two records share a name.
   */
  lemma ExtractedRoundTrip(header: string, fallback: string, status: OSStatus)
    requires UniqueNames(Parse(header))
    ensures GeneratedInit(Template(Parse(header), fallback), status).Some?
    ensures GeneratedRawValue(Template(Parse(header), fallback), GeneratedInit(Template(Parse(header), fallback), status).value) == Some(status)
  {
    ExtractedSingleLine(Parse(header));
    GeneratedRoundTrip(Template(Parse(header), fallback), status);
  }

  /** For the two records of the documented example, `-4` selects the second case and an absent code is `unknown`. */
  lemma DocExampleSwitch()
    ensures EvalInit(InitArms([NoError, Unimplemented]), -4) == Named("errSecUnimplemented")
    ensures EvalInit(InitArms([NoError, Unimplemented]), 1) == Unknown(1)
    ensures EvalRawValue(RawValueArms([NoError, Unimplemented]), Named("errSecSuccess")) == Some(0)
  {
    var statuses := [NoError, Unimplemented];
    InitFirstWins(statuses, -4, 1);
    InitUnknown(statuses, 1);
    RawValueFirstWins(statuses, 0);
  }
}
