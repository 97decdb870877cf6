/**
  `Template`: the renderer that turns the extracted records into the text of
  `OSStatusError.swift`. Six sections are built record by record and joined;
  `render()` places them, and the date, into a fixed file text. The date comes
  from the clock and the locale in the source; here it is a parameter.
 */
module Template {
  import opened StatusRecord
  import opened Decimal
  import opened Joined

  /** The description used for records without one, unless another is given. */
  const DefaultComment := "No comment provided in SecBase.h"

  /** `Template(statuses:defaultComment:)`: the records in order and the fallback description. */
  datatype Template = Template(statuses: seq<Status>, defaultDescription: string := DefaultComment)

  /** `description ?? fallback`. */
  function Resolved(description: Option<string>, fallback: string): string {
    match description
    case Some(d) => d
    case None => fallback
  }

  // ---------------------------------------------------------------------------
  // One entry per record, for each section
  // ---------------------------------------------------------------------------

  /** A documented `case` of the enum. */
  function CaseEntry(st: Status, fallback: string): string {
    "    /// " + Resolved(st.description, fallback) + "\n    case " + st.name
  }

  /** An arm of the switch in `init(status:)`. */
  function InitStatusEntry(st: Status): string {
    "        case " + DecimalText(st.code) + ":\n            self = ." + st.name
  }

  /** An arm of the switch in `rawValue`. */
  function RawValueEntry(st: Status): string {
    "        case ." + st.name + ":\n            return " + DecimalText(st.code)
  }

  /** An arm of the switch in `description`. */
  function DescriptionEntry(st: Status, fallback: string): string {
    "        case ." + st.name + ":\n            return \"" + Resolved(st.description, fallback) + "\""
  }

  /** An arm of the switch in `debugDescription`. */
  function DebugDescriptionEntry(st: Status, fallback: string): string {
    "        case ." + st.name + ":\n            return \"" + Resolved(st.description, fallback)
      + " <OSStatusError." + st.name + ": " + DecimalText(st.code) + ">\""
  }

  /** An arm of the switch in `localizedDescription`; written out separately in the source. */
  function LocalizedDescriptionEntry(st: Status, fallback: string): string {
    "        case ." + st.name + ":\n            return \"" + Resolved(st.description, fallback)
      + " <OSStatusError." + st.name + ": " + DecimalText(st.code) + ">\""
  }

  /** `statuses.map(entry)`. */
  function Entries(statuses: seq<Status>, entry: Status -> string): (r: seq<string>)
    ensures |r| == |statuses| && forall i | 0 <= i < |r| :: r[i] == entry(statuses[i])
  {
    seq(|statuses|, i requires 0 <= i < |statuses| => entry(statuses[i]))
  }

  /** The entries of two runs of records are the entries of the first run, then those of the second. */
  lemma EntriesConcat(a: seq<Status>, b: seq<Status>, entry: Status -> string)
    ensures Entries(a + b, entry) == Entries(a, entry) + Entries(b, entry)
  {
  }

  /** Entry functions that agree on the records give the same entries. */
  lemma EntriesAgree(statuses: seq<Status>, e1: Status -> string, e2: Status -> string)
    requires forall i | 0 <= i < |statuses| :: e1(statuses[i]) == e2(statuses[i])
    ensures Entries(statuses, e1) == Entries(statuses, e2)
  {
  }

  /** Each record's entry is in the joined section. */
  lemma EntryInSection(statuses: seq<Status>, entry: Status -> string, sep: string, i: nat)
    requires i < |statuses|
    ensures Contains(Join(Entries(statuses, entry), sep), entry(statuses[i]))
  {
    JoinContains(Entries(statuses, entry), i, sep);
  }

  // ---------------------------------------------------------------------------
  // The sections
  // ---------------------------------------------------------------------------

  /** `cases`: the documented cases, a blank line between neighbours. */
  function Cases(t: Template): (r: string)
    ensures r == "" <==> |t.statuses| == 0
  {
    Join(Entries(t.statuses, st => CaseEntry(st, t.defaultDescription)), "\n\n")
  }

  /** `initStatus`: the arms of `init(status:)`, one per line pair. */
  function InitStatus(t: Template): (r: string)
    ensures r == "" <==> |t.statuses| == 0
  {
    Join(Entries(t.statuses, InitStatusEntry), "\n")
  }

  /** `rawValue`: the arms of `rawValue`. */
  function RawValue(t: Template): (r: string)
    ensures r == "" <==> |t.statuses| == 0
  {
    Join(Entries(t.statuses, RawValueEntry), "\n")
  }

  /** `descriptionCase`: the arms of `description`. */
  function DescriptionCase(t: Template): (r: string)
    ensures r == "" <==> |t.statuses| == 0
  {
    Join(Entries(t.statuses, st => DescriptionEntry(st, t.defaultDescription)), "\n")
  }

  /** `debugDescription`: the arms of `debugDescription`. */
  function DebugDescription(t: Template): (r: string)
    ensures r == "" <==> |t.statuses| == 0
  {
    Join(Entries(t.statuses, st => DebugDescriptionEntry(st, t.defaultDescription)), "\n")
  }

  /** `localizedDescription`: the arms of `localizedDescription`. */
  function LocalizedDescription(t: Template): (r: string)
    ensures r == "" <==> |t.statuses| == 0
  {
    Join(Entries(t.statuses, st => LocalizedDescriptionEntry(st, t.defaultDescription)), "\n")
  }

  // ---------------------------------------------------------------------------
  // The file
  // ---------------------------------------------------------------------------

  /** Template.swift, lines 99-102: the comment lines that open the file. */
  const FileHead: seq<string> := [
    "//",
    "// OSStatusError.swift",
    "//",
    "//"
  ]

  /** Template.swift, lines 104-110: the rest of the file comment, the import, and the opening of the enum. */
  const Banner: seq<string> := [
    "// Please report issues: https://github.com/RLovelett/osstatus-generator/issues",
    "// ?????? This file is automatically generated and should not be edited by hand. ??????",
    "//",
    "",
    "import Security",
    "",
    "enum OSStatusError {"
  ]

  /** Template.swift, lines 112-116: the `unknown` case and the comment of `init(status:)`. */
  const UnknownCase: seq<string> := [
    "",
    "    /// Unknown OSStatus to SecBase.h",
    "    case unknown(OSStatus)",
    "",
    "    /// Creates a new instance with the specified OSStatus code."
  ]

  /** Template.swift, lines 125-141: the `RawRepresentable` extension up to `rawValue`. */
  const RawValueOpen: seq<string> := [
    "",
    "// MARK: - RawRepresentable",
    "",
    "extension OSStatusError: RawRepresentable {",
    "    /// Creates a new instance with the specified raw value.",
    "    ///",
    "    /// This is a failable initializer, in practice this initializer will",
    "    /// _always_ provide a non-`nil` value. This initializer is provided to meet",
    "    /// conformance for the RawRepresentable protocol.",
    "    @available(*, deprecated, renamed: \"init(status:)\")",
    "    init?(rawValue: OSStatus) {",
    "        self = .init(status: rawValue)",
    "    }",
    "",
    "    /// The corresponding value of the raw type.",
    "    ///",
    "    /// This is the OSStatus code that was parsed from SecBase.h."
  ]

  /** Template.swift, lines 150-156: the `CustomStringConvertible` extension up to `description`. */
  const DescriptionOpen: seq<string> := [
    "",
    "// MARK: - CustomStringConvertible",
    "",
    "extension OSStatusError: CustomStringConvertible {",
    "    /// A textual representation of this instance.",
    "    ///",
    "    /// Typically, this is a description from SecBase.h."
  ]

  /** Template.swift, lines 165-172: the `CustomDebugStringConvertible` extension up to `debugDescription`. */
  const DebugOpen: seq<string> := [
    "",
    "// MARK: - CustomDebugStringConvertible",
    "",
    "extension OSStatusError: CustomDebugStringConvertible {",
    "    /// A textual representation of this instance, suitable for debugging.",
    "    ///",
    "    /// Typically, this is a description from SecBase.h with the underlying",
    "    /// OSStatus error name and the associated code."
  ]

  /** Template.swift, lines 181-188: the `Error` extension up to `localizedDescription`. */
  const LocalizedOpen: seq<string> := [
    "",
    "// MARK: - Error",
    "",
    "extension OSStatusError: Error {",
    "    /// Retrieve the localized description for this error.",
    "    ///",
    "    /// Typically, this is a description from SecBase.h with the underlying",
    "    /// OSStatus error name and the associated code."
  ]

  /** Template.swift, line 103: the line that carries the date, interpolated at its end. */
  function DateLine(date: string): string {
    DatePrefix + date
  }

  /** Template.swift, line 103, up to the date. */
  const DatePrefix := "// Created by OSStatusGenerator on "

  /** Template.swift, lines 117-118: the declaration of `init(status:)` and its `switch`. */
  const InitHead: seq<string> := ["    init(status: OSStatus) {", "        switch status {"]

  /** Template.swift, lines 120-123: the `default` arm, which maps every other code to `unknown`, and the closing braces. */
  const InitTail: seq<string> := ["        default:", "            self = .unknown(status)", "        }", "    }"]

  /** Template.swift, lines 142-143: the declaration of `rawValue` and its `switch`. */
  const RawValueHead: seq<string> := ["    var rawValue: OSStatus {", "        switch self {"]

  /** Template.swift, lines 145-148: the `unknown` arm of `rawValue`, which returns the carried code, and the closing braces. */
  const RawValueTail: seq<string> := ["        case .unknown(let rawValue):", "            return rawValue", "        }", "    }"]

  /** Template.swift, lines 157-158: the declaration of `description` and its `switch`. */
  const DescriptionHead: seq<string> := ["    var description: String {", "        switch self {"]

  /** Template.swift, lines 160-163: the `unknown` arm of `description` and the closing braces. */
  const DescriptionTail: seq<string> := [
    "        case .unknown(let rawValue):",
    "            return \"The code, \\(rawValue), is an unknown OSStatus to SecBase.h\"",
    "        }",
    "    }"
  ]

  /** Template.swift, lines 173-174: the declaration of `debugDescription` and its `switch`. */
  const DebugHead: seq<string> := ["    var debugDescription: String {", "        switch self {"]

  /** Template.swift, lines 176-179: the `unknown` arm of `debugDescription` and the closing braces. */
  const DebugTail: seq<string> := [
    "        case .unknown(let rawValue):",
    "            return \"Unknown OSStatus to SecBase.h <OSStatusError.unknown: \\(rawValue)>\"",
    "        }",
    "    }"
  ]

  /** Template.swift, lines 189-190: the declaration of `localizedDescription` and its `switch`. */
  const LocalizedHead: seq<string> := ["    var localizedDescription: String {", "        switch self {"]

  /** Template.swift, lines 192-195: the `unknown` arm of `localizedDescription` and the closing braces. */
  const LocalizedTail: seq<string> := [
    "        case .unknown(let rawValue):",
    "            return \"Unknown OSStatus to SecBase.h <OSStatusError.unknown: \\(rawValue)>\"",
    "        }",
    "    }"
  ]

  /** Template.swift, lines 117-123: `init(status:)`, whose switch holds the `initStatus` arms and then the `default` arm. */
  function InitSwitch(t: Template): seq<string> {
    InitHead + [InitStatus(t)] + InitTail
  }

  /** Template.swift, lines 142-148: `rawValue`, whose switch holds the `rawValue` arms and then the `unknown` arm. */
  function RawValueSwitch(t: Template): seq<string> {
    RawValueHead + [RawValue(t)] + RawValueTail
  }

  /** Template.swift, lines 157-163: `description`, whose switch holds the `descriptionCase` arms and then the `unknown` arm. */
  function DescriptionSwitch(t: Template): seq<string> {
    DescriptionHead + [DescriptionCase(t)] + DescriptionTail
  }

  /** Template.swift, lines 173-179: `debugDescription`, whose switch holds the `debugDescription` arms and then the `unknown` arm. */
  function DebugSwitch(t: Template): seq<string> {
    DebugHead + [DebugDescription(t)] + DebugTail
  }

  /** Template.swift, lines 189-195: `localizedDescription`, whose switch holds the `localizedDescription` arms and then the `unknown` arm. */
  function LocalizedSwitch(t: Template): seq<string> {
    LocalizedHead + [LocalizedDescription(t)] + LocalizedTail
  }

  /** Template.swift, lines 104-124: the enum, with its documented cases, the `unknown` case and `init(status:)`. */
  function EnumBlock(t: Template): seq<string> {
    Banner + [Cases(t)] + UnknownCase + InitSwitch(t) + ["}"]
  }

  /** Template.swift, lines 125-149: the `RawRepresentable` extension. */
  function RawRepresentableBlock(t: Template): seq<string> {
    RawValueOpen + RawValueSwitch(t) + ["}"]
  }

  /** Template.swift, lines 150-164: the `CustomStringConvertible` extension. */
  function DescriptionBlock(t: Template): seq<string> {
    DescriptionOpen + DescriptionSwitch(t) + ["}"]
  }

  /** Template.swift, lines 165-180: the `CustomDebugStringConvertible` extension. */
  function DebugBlock(t: Template): seq<string> {
    DebugOpen + DebugSwitch(t) + ["}"]
  }

  /** Template.swift, lines 181-196: the `Error` extension, which ends the file. */
  function ErrorBlock(t: Template): seq<string> {
    LocalizedOpen + LocalizedSwitch(t) + ["}"]
  }

  /** Template.swift, lines 104-196: everything after the date line. */
  function FileBody(t: Template): seq<string> {
    EnumBlock(t) + RawRepresentableBlock(t) + DescriptionBlock(t) + DebugBlock(t) + ErrorBlock(t)
  }

  /**
    `render()`, with the date given: lines 99 to 196 of Template.swift joined by
    line breaks, with the date and the six sections in place (a section counts
    as one line of the template though it may span several). The template is a
    raw string, so the `\(rawValue)` in three of the `unknown` arms is text here; it
    becomes an interpolation in the generated code.
   */
  function Render(t: Template, date: string): string {
    Join(FileHead + [DateLine(date)] + FileBody(t), "\n")
  }

  // ---------------------------------------------------------------------------
  // Where the date goes
  // ---------------------------------------------------------------------------

  /** Where the date starts in the rendered text: after four comment lines and `// Created by OSStatusGenerator on `. */
  const DateStart: nat := 67

  /** The rendered text is the fixed head, the date line, and the body, which does not depend on the date. */
  lemma RenderAroundDate(t: Template, date: string)
    ensures Render(t, date) == Join(FileHead, "\n") + "\n" + DateLine(date) + "\n" + Join(FileBody(t), "\n")
  {
    JoinAround(FileHead, DateLine(date), FileBody(t), "\n");
  }

  /** The four comment lines before the date line take 31 characters. */
  lemma FileHeadLength()
    ensures |Join(FileHead, "\n")| == 31
  {
    assert TotalLength(FileHead) == 28;
  }

  /** The three parts of a concatenation are found again by slicing. */
  lemma Slices(head: string, mid: string, tail: string)
    ensures (head + mid + tail)[..|head|] == head
    ensures (head + mid + tail)[|head|..|head| + |mid|] == mid
    ensures (head + mid + tail)[|head| + |mid|..] == tail
  {
  }

  /** The rendered text is the text up to the date, the date, and the text after it, which does not depend on the date. */
  lemma RenderDate(t: Template, date: string)
    ensures |Join(FileHead, "\n") + "\n" + DatePrefix| == DateStart
    ensures Render(t, date) == (Join(FileHead, "\n") + "\n" + DatePrefix) + date + ("\n" + Join(FileBody(t), "\n"))
  {
    FileHeadLength();
    RenderAroundDate(t, date);
    Regroup(Join(FileHead, "\n"), "\n", DatePrefix, date, Join(FileBody(t), "\n"));
  }

  /** Regrouping a concatenation around its middle part. */
  lemma Regroup(a: string, n: string, p: string, d: string, b: string)
    ensures a + n + (p + d) + n + b == (a + n + p) + d + (n + b)
  {
  }

  /** The date sits at `DateStart`, and the text around it is the same whatever the date. */
  lemma DateIsolated(t: Template, d1: string, d2: string)
    ensures DateStart + |d1| <= |Render(t, d1)| && DateStart + |d2| <= |Render(t, d2)|
    ensures Render(t, d1)[DateStart..DateStart + |d1|] == d1
    ensures Render(t, d1)[..DateStart] == Render(t, d2)[..DateStart]
    ensures Render(t, d1)[DateStart + |d1|..] == Render(t, d2)[DateStart + |d2|..]
  {
    var head := Join(FileHead, "\n") + "\n" + DatePrefix;
    var body := "\n" + Join(FileBody(t), "\n");
    RenderDate(t, d1);
    RenderDate(t, d2);
    Slices(head, d1, body);
    Slices(head, d2, body);
  }

  /** Different dates give different texts. */
  lemma DateInjective(t: Template, d1: string, d2: string)
    requires Render(t, d1) == Render(t, d2)
    ensures d1 == d2
  {
    DateIsolated(t, d1, d2);
    DateIsolated(t, d2, d1);
  }

  // ---------------------------------------------------------------------------
  // What the rendered text holds
  // ---------------------------------------------------------------------------

  /** Everything after the date line is in the rendered text. */
  lemma RenderHasBody(t: Template, date: string)
    ensures Contains(Render(t, date), Join(FileBody(t), "\n"))
  {
    JoinAroundContains(FileHead, DateLine(date), FileBody(t), "\n");
  }

  /** The body holds the join of each of its five blocks. */
  lemma BodyHasBlocks(t: Template)
    ensures Contains(Join(FileBody(t), "\n"), Join(EnumBlock(t), "\n"))
    ensures Contains(Join(FileBody(t), "\n"), Join(RawRepresentableBlock(t), "\n"))
    ensures Contains(Join(FileBody(t), "\n"), Join(DescriptionBlock(t), "\n"))
    ensures Contains(Join(FileBody(t), "\n"), Join(DebugBlock(t), "\n"))
    ensures Contains(Join(FileBody(t), "\n"), Join(ErrorBlock(t), "\n"))
  {
    var e, r, d, g, l := EnumBlock(t), RawRepresentableBlock(t), DescriptionBlock(t), DebugBlock(t), ErrorBlock(t);
    var body := Join(FileBody(t), "\n");
    JoinContainsJoin(e + r + d + g, l, "\n");
    JoinContainsJoin(e + r + d, g, "\n");
    JoinContainsJoin(e + r, d, "\n");
    JoinContainsJoin(e, r, "\n");
    ContainsTrans(body, Join(e + r + d + g, "\n"), Join(g, "\n"));
    ContainsTrans(body, Join(e + r + d + g, "\n"), Join(e + r + d, "\n"));
    ContainsTrans(body, Join(e + r + d, "\n"), Join(d, "\n"));
    ContainsTrans(body, Join(e + r + d, "\n"), Join(e + r, "\n"));
    ContainsTrans(body, Join(e + r, "\n"), Join(r, "\n"));
    ContainsTrans(body, Join(e + r, "\n"), Join(e, "\n"));
  }

  /** The shape of the enum block: lines, a section, lines, a switch, the closing brace. */
  lemma EnumHolds(banner: seq<string>, cases: string, middle: seq<string>, sw: seq<string>)
    requires |banner| > 0 && |middle| > 2 && |sw| > 0
    ensures Contains(Join(banner + [cases] + middle + sw + ["}"], "\n"), cases)
    ensures Contains(Join(banner + [cases] + middle + sw + ["}"], "\n"), middle[2])
    ensures Contains(Join(banner + [cases] + middle + sw + ["}"], "\n"), Join(sw, "\n"))
  {
    var block := Join(banner + [cases] + middle + sw + ["}"], "\n");
    var front := banner + [cases] + middle;
    JoinMiddleContains(front, sw, ["}"], "\n");
    JoinContainsJoin(front + sw, ["}"], "\n");
    JoinContainsJoin(front, sw, "\n");
    ContainsTrans(block, Join(front + sw, "\n"), Join(front, "\n"));
    JoinAroundContains(banner, cases, middle, "\n");
    ContainsTrans(block, Join(front, "\n"), cases);
    ContainsTrans(block, Join(front, "\n"), Join(middle, "\n"));
    JoinContains(middle, 2, "\n");
    ContainsTrans(block, Join(middle, "\n"), middle[2]);
  }

  /** A text that holds an enum block holds its cases, the third of the lines after them, and its switch. */
  lemma EnumRendered(r: string, banner: seq<string>, cases: string, middle: seq<string>, sw: seq<string>)
    requires |banner| > 0 && |middle| > 2 && |sw| > 0
    requires Contains(r, Join(banner + [cases] + middle + sw + ["}"], "\n"))
    ensures Contains(r, cases) && Contains(r, middle[2]) && Contains(r, Join(sw, "\n"))
  {
    var block := Join(banner + [cases] + middle + sw + ["}"], "\n");
    EnumHolds(banner, cases, middle, sw);
    ContainsTrans(r, block, cases);
    ContainsTrans(r, block, middle[2]);
    ContainsTrans(r, block, Join(sw, "\n"));
  }

  /** A switch holds its section and the line of its last arm. */
  lemma SwitchHolds(head: seq<string>, section: string, tail: seq<string>)
    requires |head| > 0 && |tail| > 1
    ensures Contains(Join(head + [section] + tail, "\n"), section)
    ensures Contains(Join(head + [section] + tail, "\n"), tail[1])
  {
    JoinAroundContains(head, section, tail, "\n");
    JoinContains(tail, 1, "\n");
    ContainsTrans(Join(head + [section] + tail, "\n"), Join(tail, "\n"), tail[1]);
  }

  /** Whatever one of the blocks holds, the rendered text holds. */
  lemma BlockRendered(t: Template, date: string, block: seq<string>, x: string)
    requires block in {EnumBlock(t), RawRepresentableBlock(t), DescriptionBlock(t), DebugBlock(t), ErrorBlock(t)}
    requires Contains(Join(block, "\n"), x)
    ensures Contains(Render(t, date), x)
  {
    RenderHasBody(t, date);
    BodyHasBlocks(t);
    ContainsTrans(Join(FileBody(t), "\n"), Join(block, "\n"), x);
    ContainsTrans(Render(t, date), Join(FileBody(t), "\n"), x);
  }

  /** Whatever a switch holds, a text that holds the switch holds. */
  lemma SwitchRendered(r: string, head: seq<string>, section: string, tail: seq<string>)
    requires |head| > 0 && |tail| > 1 && Contains(r, Join(head + [section] + tail, "\n"))
    ensures Contains(r, section) && Contains(r, tail[1])
  {
    SwitchHolds(head, section, tail);
    ContainsTrans(r, Join(head + [section] + tail, "\n"), section);
    ContainsTrans(r, Join(head + [section] + tail, "\n"), tail[1]);
  }

  /** Each of the blocks, whole, is in the rendered text. */
  lemma BlockInRender(t: Template, date: string, block: seq<string>)
    requires block in {EnumBlock(t), RawRepresentableBlock(t), DescriptionBlock(t), DebugBlock(t), ErrorBlock(t)}
    ensures Contains(Render(t, date), Join(block, "\n"))
  {
    ContainsSelf(Join(block, "\n"));
    BlockRendered(t, date, block, Join(block, "\n"));
  }

  /** A text that holds an extension block holds its switch, the switch's section and the line of its last arm. */
  lemma ExtensionRendered(r: string, open: seq<string>, head: seq<string>, section: string, tail: seq<string>)
    requires |open| > 0 && |head| > 0 && |tail| > 1
    requires Contains(r, Join(open + (head + [section] + tail) + ["}"], "\n"))
    ensures Contains(r, Join(head + [section] + tail, "\n"))
    ensures Contains(r, section) && Contains(r, tail[1])
  {
    var sw := head + [section] + tail;
    JoinMiddleContains(open, sw, ["}"], "\n");
    ContainsTrans(r, Join(open + sw + ["}"], "\n"), Join(sw, "\n"));
    SwitchRendered(r, head, section, tail);
  }

  /** The enum's cases, the third of the lines after them, its switch and the line of the switch's last arm are in the rendered text. */
  lemma EnumInRender(t: Template, date: string, banner: seq<string>, cases: string, middle: seq<string>,
                     head: seq<string>, section: string, tail: seq<string>)
    requires |banner| > 0 && |middle| > 2 && |head| > 0 && |tail| > 1
    requires banner + [cases] + middle + (head + [section] + tail) + ["}"] == EnumBlock(t)
    ensures Contains(Render(t, date), cases) && Contains(Render(t, date), middle[2])
    ensures Contains(Render(t, date), Join(head + [section] + tail, "\n"))
    ensures Contains(Render(t, date), tail[1])
  {
    BlockInRender(t, date, EnumBlock(t));
    EnumRendered(Render(t, date), banner, cases, middle, head + [section] + tail);
    SwitchRendered(Render(t, date), head, section, tail);
  }

  /** Each extension block, its switch and the line of the switch's last arm are in the rendered text. */
  lemma ExtensionInRender(t: Template, date: string, open: seq<string>, head: seq<string>, section: string, tail: seq<string>)
    requires |open| > 0 && |head| > 0 && |tail| > 1
    requires open + (head + [section] + tail) + ["}"] in {RawRepresentableBlock(t), DescriptionBlock(t), DebugBlock(t), ErrorBlock(t)}
    ensures Contains(Render(t, date), Join(open + (head + [section] + tail) + ["}"], "\n"))
    ensures Contains(Render(t, date), Join(head + [section] + tail, "\n"))
    ensures Contains(Render(t, date), tail[1])
  {
    BlockInRender(t, date, open + (head + [section] + tail) + ["}"]);
    ExtensionRendered(Render(t, date), open, head, section, tail);
  }

  /** The `Error` extension holds the `unknown` arm of `localizedDescription`. */
  lemma ErrorBlockHolds(t: Template)
    ensures Contains(Join(ErrorBlock(t), "\n"), "            return \"Unknown OSStatus to SecBase.h <OSStatusError.unknown: \\(rawValue)>\"")
  {
    ContainsSelf(Join(ErrorBlock(t), "\n"));
    ExtensionRendered(Join(ErrorBlock(t), "\n"), LocalizedOpen, LocalizedHead, LocalizedDescription(t), LocalizedTail);
  }

  /** All six sections are in the rendered text. */
  lemma SectionsRendered(t: Template, date: string)
    ensures Contains(Render(t, date), Cases(t))
    ensures Contains(Render(t, date), InitStatus(t))
    ensures Contains(Render(t, date), RawValue(t))
    ensures Contains(Render(t, date), DescriptionCase(t))
    ensures Contains(Render(t, date), DebugDescription(t))
    ensures Contains(Render(t, date), LocalizedDescription(t))
  {
    var r := Render(t, date);
    UnknownCaseRendered(t, date);
    SwitchRendered(r, InitHead, InitStatus(t), InitTail);
    UnknownRawValueRendered(t, date);
    SwitchRendered(r, RawValueHead, RawValue(t), RawValueTail);
    UnknownDescriptionRendered(t, date);
    SwitchRendered(r, DescriptionHead, DescriptionCase(t), DescriptionTail);
    UnknownDebugRendered(t, date);
    SwitchRendered(r, DebugHead, DebugDescription(t), DebugTail);
    UnknownLocalizedRendered(t, date);
    SwitchRendered(r, LocalizedHead, LocalizedDescription(t), LocalizedTail);
  }

  /**
    Whatever the records, the generated enum has its documented cases and its
    `unknown` case, and `init(status:)` has its switch: the `initStatus` arms,
    then the `default` arm that maps every other code to `unknown`.
   */
  lemma UnknownCaseRendered(t: Template, date: string)
    ensures Contains(Render(t, date), Cases(t))
    ensures Contains(Render(t, date), "    case unknown(OSStatus)")
    ensures Contains(Render(t, date), "            self = .unknown(status)")
    ensures Contains(Render(t, date), Join(InitSwitch(t), "\n"))
  {
    EnumInRender(t, date, Banner, Cases(t), UnknownCase, InitHead, InitStatus(t), InitTail);
  }

  /** Whatever the records, `rawValue` has its switch: the `rawValue` arms, then the `unknown` arm, which returns the carried code. */
  lemma UnknownRawValueRendered(t: Template, date: string)
    ensures Contains(Render(t, date), "            return rawValue")
    ensures Contains(Render(t, date), Join(RawValueSwitch(t), "\n"))
  {
    ExtensionInRender(t, date, RawValueOpen, RawValueHead, RawValue(t), RawValueTail);
  }

  /** Whatever the records, `description` has its switch: the `descriptionCase` arms, then the `unknown` arm, which names the carried code. */
  lemma UnknownDescriptionRendered(t: Template, date: string)
    ensures Contains(Render(t, date), "            return \"The code, \\(rawValue), is an unknown OSStatus to SecBase.h\"")
    ensures Contains(Render(t, date), Join(DescriptionSwitch(t), "\n"))
  {
    ExtensionInRender(t, date, DescriptionOpen, DescriptionHead, DescriptionCase(t), DescriptionTail);
  }

  /**
    Whatever the records, the `CustomDebugStringConvertible` extension is in
    the rendered text, and `debugDescription` has its switch: the
    `debugDescription` arms, then the `unknown` arm, which names the carried code.
   */
  lemma UnknownDebugRendered(t: Template, date: string)
    ensures Contains(Render(t, date), "            return \"Unknown OSStatus to SecBase.h <OSStatusError.unknown: \\(rawValue)>\"")
    ensures Contains(Render(t, date), Join(DebugBlock(t), "\n"))
    ensures Contains(Render(t, date), Join(DebugSwitch(t), "\n"))
  {
    ExtensionInRender(t, date, DebugOpen, DebugHead, DebugDescription(t), DebugTail);
  }

  /**
    Whatever the records, the `Error` extension is in the rendered text, and
    its `localizedDescription` has its switch: the `localizedDescription` arms,
    then the `unknown` arm, which names the carried code.
   */
  lemma UnknownLocalizedRendered(t: Template, date: string)
    ensures Contains(Render(t, date), Join(ErrorBlock(t), "\n"))
    ensures Contains(Join(ErrorBlock(t), "\n"), "            return \"Unknown OSStatus to SecBase.h <OSStatusError.unknown: \\(rawValue)>\"")
    ensures Contains(Render(t, date), Join(LocalizedSwitch(t), "\n"))
  {
    ExtensionInRender(t, date, LocalizedOpen, LocalizedHead, LocalizedDescription(t), LocalizedTail);
    ErrorBlockHolds(t);
  }

  /** Every record has its case and its arm in each of the five switches in the rendered text. */
  lemma RecordRendered(t: Template, date: string, i: nat)
    requires i < |t.statuses|
    ensures Contains(Render(t, date), CaseEntry(t.statuses[i], t.defaultDescription))
    ensures Contains(Render(t, date), InitStatusEntry(t.statuses[i]))
    ensures Contains(Render(t, date), RawValueEntry(t.statuses[i]))
    ensures Contains(Render(t, date), DescriptionEntry(t.statuses[i], t.defaultDescription))
    ensures Contains(Render(t, date), DebugDescriptionEntry(t.statuses[i], t.defaultDescription))
    ensures Contains(Render(t, date), LocalizedDescriptionEntry(t.statuses[i], t.defaultDescription))
  {
    var r, f := Render(t, date), t.defaultDescription;
    SectionsRendered(t, date);
    EntryInSection(t.statuses, st => CaseEntry(st, f), "\n\n", i);
    ContainsTrans(r, Cases(t), CaseEntry(t.statuses[i], f));
    EntryInSection(t.statuses, InitStatusEntry, "\n", i);
    ContainsTrans(r, InitStatus(t), InitStatusEntry(t.statuses[i]));
    EntryInSection(t.statuses, RawValueEntry, "\n", i);
    ContainsTrans(r, RawValue(t), RawValueEntry(t.statuses[i]));
    EntryInSection(t.statuses, st => DescriptionEntry(st, f), "\n", i);
    ContainsTrans(r, DescriptionCase(t), DescriptionEntry(t.statuses[i], f));
    EntryInSection(t.statuses, st => DebugDescriptionEntry(st, f), "\n", i);
    ContainsTrans(r, DebugDescription(t), DebugDescriptionEntry(t.statuses[i], f));
    EntryInSection(t.statuses, st => LocalizedDescriptionEntry(st, f), "\n", i);
    ContainsTrans(r, LocalizedDescription(t), LocalizedDescriptionEntry(t.statuses[i], f));
  }

  /** Every record's arm is inside the switch of each of the five properties. */
  lemma RecordInSwitches(t: Template, i: nat)
    requires i < |t.statuses|
    ensures Contains(Join(InitSwitch(t), "\n"), InitStatusEntry(t.statuses[i]))
    ensures Contains(Join(RawValueSwitch(t), "\n"), RawValueEntry(t.statuses[i]))
    ensures Contains(Join(DescriptionSwitch(t), "\n"), DescriptionEntry(t.statuses[i], t.defaultDescription))
    ensures Contains(Join(DebugSwitch(t), "\n"), DebugDescriptionEntry(t.statuses[i], t.defaultDescription))
    ensures Contains(Join(LocalizedSwitch(t), "\n"), LocalizedDescriptionEntry(t.statuses[i], t.defaultDescription))
  {
    var f := t.defaultDescription;
    SwitchHolds(InitHead, InitStatus(t), InitTail);
    EntryInSection(t.statuses, InitStatusEntry, "\n", i);
    ContainsTrans(Join(InitSwitch(t), "\n"), InitStatus(t), InitStatusEntry(t.statuses[i]));
    SwitchHolds(RawValueHead, RawValue(t), RawValueTail);
    EntryInSection(t.statuses, RawValueEntry, "\n", i);
    ContainsTrans(Join(RawValueSwitch(t), "\n"), RawValue(t), RawValueEntry(t.statuses[i]));
    SwitchHolds(DescriptionHead, DescriptionCase(t), DescriptionTail);
    EntryInSection(t.statuses, st => DescriptionEntry(st, f), "\n", i);
    ContainsTrans(Join(DescriptionSwitch(t), "\n"), DescriptionCase(t), DescriptionEntry(t.statuses[i], f));
    SwitchHolds(DebugHead, DebugDescription(t), DebugTail);
    EntryInSection(t.statuses, st => DebugDescriptionEntry(st, f), "\n", i);
    ContainsTrans(Join(DebugSwitch(t), "\n"), DebugDescription(t), DebugDescriptionEntry(t.statuses[i], f));
    SwitchHolds(LocalizedHead, LocalizedDescription(t), LocalizedTail);
    EntryInSection(t.statuses, st => LocalizedDescriptionEntry(st, f), "\n", i);
    ContainsTrans(Join(LocalizedSwitch(t), "\n"), LocalizedDescription(t), LocalizedDescriptionEntry(t.statuses[i], f));
  }

  /** With no records every section is empty, so the fallback description leaves no trace. */
  lemma NoRecordsRendered(t1: Template, t2: Template, date: string)
    requires |t1.statuses| == 0 && |t2.statuses| == 0
    ensures Render(t1, date) == Render(t2, date)
  {
    assert FileBody(t1) == FileBody(t2);
  }

  /** A record without a description is documented with the fallback description. */
  lemma FallbackShown(t: Template, date: string, i: nat)
    requires i < |t.statuses| && t.statuses[i].description.None?
    ensures Contains(Render(t, date), "    /// " + t.defaultDescription + "\n    case " + t.statuses[i].name)
  {
    RecordRendered(t, date, i);
  }

  /** When every record has its own description the fallback is never used. */
  lemma FallbackUnused(statuses: seq<Status>, f1: string, f2: string, date: string)
    requires forall i | 0 <= i < |statuses| :: statuses[i].description.Some?
    ensures Render(Template(statuses, f1), date) == Render(Template(statuses, f2), date)
  {
    var t1, t2 := Template(statuses, f1), Template(statuses, f2);
    EntriesAgree(statuses, st => CaseEntry(st, f1), st => CaseEntry(st, f2));
    EntriesAgree(statuses, st => DescriptionEntry(st, f1), st => DescriptionEntry(st, f2));
    EntriesAgree(statuses, st => DebugDescriptionEntry(st, f1), st => DebugDescriptionEntry(st, f2));
    EntriesAgree(statuses, st => LocalizedDescriptionEntry(st, f1), st => LocalizedDescriptionEntry(st, f2));
    assert FileBody(t1) == FileBody(t2);
  }

  /** `debugDescription` and `localizedDescription` are written separately but render the same arms. */
  lemma DebugIsLocalized(t: Template)
    ensures DebugDescription(t) == LocalizedDescription(t)
  {
    var f := t.defaultDescription;
    EntriesAgree(t.statuses, st => DebugDescriptionEntry(st, f), st => LocalizedDescriptionEntry(st, f));
  }

  /** Rendering two runs of records: each section is the first run's section, a separator, then the second's. */
  lemma SectionsConcat(a: seq<Status>, b: seq<Status>, f: string)
    requires |a| > 0 && |b| > 0
    ensures Cases(Template(a + b, f)) == Cases(Template(a, f)) + "\n\n" + Cases(Template(b, f))
    ensures InitStatus(Template(a + b, f)) == InitStatus(Template(a, f)) + "\n" + InitStatus(Template(b, f))
    ensures RawValue(Template(a + b, f)) == RawValue(Template(a, f)) + "\n" + RawValue(Template(b, f))
    ensures DescriptionCase(Template(a + b, f)) == DescriptionCase(Template(a, f)) + "\n" + DescriptionCase(Template(b, f))
    ensures DebugDescription(Template(a + b, f)) == DebugDescription(Template(a, f)) + "\n" + DebugDescription(Template(b, f))
    ensures LocalizedDescription(Template(a + b, f)) == LocalizedDescription(Template(a, f)) + "\n" + LocalizedDescription(Template(b, f))
  {
    var c, d := st => CaseEntry(st, f), st => DescriptionEntry(st, f);
    var g, l := st => DebugDescriptionEntry(st, f), st => LocalizedDescriptionEntry(st, f);
    EntriesConcat(a, b, c);
    JoinConcat(Entries(a, c), Entries(b, c), "\n\n");
    EntriesConcat(a, b, InitStatusEntry);
    JoinConcat(Entries(a, InitStatusEntry), Entries(b, InitStatusEntry), "\n");
    EntriesConcat(a, b, RawValueEntry);
    JoinConcat(Entries(a, RawValueEntry), Entries(b, RawValueEntry), "\n");
    EntriesConcat(a, b, d);
    JoinConcat(Entries(a, d), Entries(b, d), "\n");
    EntriesConcat(a, b, g);
    JoinConcat(Entries(a, g), Entries(b, g), "\n");
    EntriesConcat(a, b, l);
    JoinConcat(Entries(a, l), Entries(b, l), "\n");
  }
}
