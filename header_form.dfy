/**
  Records written in the form of the documented example of the extractor:
  one unindented line per record, `name = code,` padded with spaces, then
  the description as a comment when the record has one. The extractor reads
  a text of such lines back to the very records it was written from.
 */
module HeaderForm {
  import opened StatusRecord
  import opened Characters
  import opened Decimal
  import opened Joined
  import opened StatusSequence
  import opened StatusPattern

  /** `n` spaces. */
  function Spaces(n: nat): (r: string)
    ensures |r| == n && AllOf(r, Whitespace)
  {
    seq(n, _ => ' ')
  }

  /** One enumerator line: the record, the padding after its name and the padding before its comment. */
  datatype Line = Line(status: Status, nameGap: nat, commentGap: nat)

  /** `name<padding>= code,` */
  function Entry(st: Status, nameGap: nat): string {
    st.name + Spaces(nameGap) + "= " + DecimalText(st.code) + ","
  }

  /** `<padding>/* text */` */
  function CommentText(d: string, gap: nat): string {
    Spaces(gap) + "/* " + d + " */"
  }

  /** The line of one record; the comment is there exactly when the description is. */
  function LineText(l: Line): (r: string)
    ensures |r| > |l.status.name| && r[..|l.status.name|] == l.status.name
    ensures r[|r| - 1] == ',' || r[|r| - 1] == '/'
  {
    var entry := Entry(l.status, l.nameGap);
    match l.status.description
    case None => entry
    case Some(d) => entry + CommentText(d, l.commentGap)
  }

  /** The lines of `lines`, one per line: what `joined(separator: "\n")` makes of them. */
  function Header(lines: seq<Line>): string
    decreases |lines|
  {
    if |lines| == 0 then ""
    else if |lines| == 1 then LineText(lines[0])
    else LineText(lines[0]) + "\n" + Header(lines[1..])
  }

  /** The records the lines were written from, in order. */
  function Statuses(lines: seq<Line>): seq<Status> {
    seq(|lines|, i requires 0 <= i < |lines| => lines[i].status)
  }

  // ---------------------------------------------------------------------------
  // Text at a position
  // ---------------------------------------------------------------------------

  /**
    `t` occurs in `s` at `i`, stated character by character: the form of
    `Joined.OccursAt` (see AtIsOccursAt) that the proofs below take apart one
    piece of a line at a time.
   */
  predicate At(s: string, i: nat, t: string)
    decreases |t|
  {
    i + |t| <= |s| && (|t| == 0 || (s[i] == t[0] && At(s, i + 1, t[1..])))
  }

  /** At and `Joined.OccursAt` agree. */
  lemma {:induction false} AtIsOccursAt(s: string, i: nat, t: string)
    ensures At(s, i, t) <==> OccursAt(s, t, i)
    decreases |t|
  {
    if i + |t| <= |s| && |t| > 0 {
      AtIsOccursAt(s, i + 1, t[1..]);
      assert s[i..i + |t|] == [s[i]] + s[i + 1..i + 1 + |t[1..]|];
      assert t == [t[0]] + t[1..];
    }
  }

  lemma {:induction false} AtIndex(s: string, i: nat, t: string, k: nat)
    requires At(s, i, t) && k < |t|
    ensures i + k < |s| && s[i + k] == t[k]
    decreases k
  {
    if k > 0 {
      AtIndex(s, i + 1, t[1..], k - 1);
    }
  }

  lemma {:induction false} AtSplit(s: string, i: nat, x: string, y: string)
    requires At(s, i, x + y)
    ensures At(s, i, x) && At(s, i + |x|, y)
    decreases |x|
  {
    if |x| == 0 {
      assert x + y == y;
    } else {
      assert (x + y)[1..] == x[1..] + y;
      AtSplit(s, i + 1, x[1..], y);
    }
  }

  lemma {:induction false} AtSuffix(s: string, i: nat)
    requires i <= |s|
    ensures At(s, i, s[i..])
    decreases |s| - i
  {
    if i < |s| {
      AtSuffix(s, i + 1);
      assert s[i..][1..] == s[i + 1..];
    }
  }

  lemma AtSlice(s: string, i: nat, t: string)
    requires At(s, i, t)
    ensures i + |t| <= |s| && s[i..i + |t|] == t
  {
    forall k | 0 <= k < |t| ensures s[i..i + |t|][k] == t[k] {
      AtIndex(s, i, t, k);
    }
  }

  lemma AtRun(s: string, i: nat, t: string, kind: CharClass)
    requires At(s, i, t) && AllOf(t, kind)
    ensures Run(s, i, i + |t|, kind)
  {
    forall k | i <= k < i + |t| ensures InClass(s[k], kind) {
      AtIndex(s, i, t, k - i);
    }
  }

  // ---------------------------------------------------------------------------
  // One line
  // ---------------------------------------------------------------------------

  /** The pieces of an entry, each at its place. */
  predicate EntryAt(s: string, p: nat, st: Status, gap: nat) {
    var e := p + |st.name| + gap;
    && At(s, p, st.name) && At(s, p + |st.name|, Spaces(gap)) && At(s, e, "= ")
    && At(s, e + 2, DecimalText(st.code)) && At(s, e + 2 + |DecimalText(st.code)|, ",")
  }

  lemma EntryPieces(s: string, p: nat, st: Status, gap: nat)
    requires At(s, p, Entry(st, gap))
    ensures EntryAt(s, p, st, gap)
    ensures |Entry(st, gap)| == |st.name| + gap + 2 + |DecimalText(st.code)| + 1
  {
    var name, code := st.name, DecimalText(st.code);
    AtSplit(s, p, name + Spaces(gap) + "= " + code, ",");
    AtSplit(s, p, name + Spaces(gap) + "= ", code);
    AtSplit(s, p, name + Spaces(gap), "= ");
    AtSplit(s, p, name, Spaces(gap));
  }

  /** The name of an entry at a line start is what `nameMatch` matches there. */
  lemma EntryName(s: string, p: nat, name: string, gap: nat)
    requires p <= |s| && AtLineStart(s, p) && IsName(name)
    requires At(s, p, name) && At(s, p + |name|, Spaces(gap))
    ensures NameAt(s, p, p, p + |name|, p + |name| + gap) && s[p..p + |name|] == name
  {
    AtRun(s, p, name, Word);
    AtRun(s, p + |name|, Spaces(gap), Whitespace);
    AtSlice(s, p, name);
  }

  /** `= code,` is the `=`, then what `codeMatch` matches, then the `,`. */
  lemma EntryCode(s: string, e: nat, code: OSStatus)
    requires At(s, e, "= ") && At(s, e + 2, DecimalText(code)) && At(s, e + 2 + |DecimalText(code)|, ",")
    ensures var g := e + 2 + |DecimalText(code)|;
      s[e] == '=' && CodeAt(s, e + 1, e + 2, g, g, code) && g < |s| && s[g] == ','
  {
    var g := e + 2 + |DecimalText(code)|;
    AtIndex(s, e, "= ", 0);
    AtIndex(s, e, "= ", 1);
    AtIndex(s, g, ",", 0);
    AtSlice(s, e + 2, DecimalText(code));
    DecimalRoundTrip(code);
    assert Run(s, e + 1, e + 2, Whitespace);
  }

  /** The bounds of the required part of the match at an entry. */
  lemma EntryBounds(s: string, p: nat, st: Status, gap: nat) returns (x: HeadBounds)
    requires p <= |s| && AtLineStart(s, p) && EntryAt(s, p, st, gap) && IsName(st.name)
    ensures HeadAt(s, p, x, st.code) && s[x.nameStart..x.nameEnd] == st.name
    ensures x.comma + 1 == p + |st.name| + gap + 3 + |DecimalText(st.code)|
  {
    var e := p + |st.name| + gap;
    EntryName(s, p, st.name, gap);
    EntryCode(s, e, st.code);
    x := HeadBounds(p, p + |st.name|, e, e + 2, e + 2 + |DecimalText(st.code)|, e + 2 + |DecimalText(st.code)|);
  }

  /** An entry at a line start is the required part of a match, with the entry's name and code. */
  lemma EntryHead(s: string, p: nat, st: Status, gap: nat, e: nat)
    requires p <= |s| && AtLineStart(s, p) && At(s, p, Entry(st, gap)) && IsName(st.name)
    requires e == p + |Entry(st, gap)|
    ensures HeadMatch(s, p) == Some(Head(st.name, st.code, e))
  {
    EntryPieces(s, p, st, gap);
    var x := EntryBounds(s, p, st, gap);
    HeadMatchComplete(s, p, x, st.code);
    assert HeadMatch(s, p).value == Head(st.name, st.code, e);
  }

  /** The pieces of a comment, each at its place. */
  predicate CommentTextAt(s: string, i: nat, d: string, gap: nat) {
    && At(s, i, Spaces(gap)) && At(s, i + gap, "/* ") && At(s, i + gap + 3, d)
    && At(s, i + gap + 3 + |d|, " */")
  }

  lemma CommentPieces(s: string, i: nat, d: string, gap: nat)
    requires At(s, i, CommentText(d, gap))
    ensures CommentTextAt(s, i, d, gap)
    ensures |CommentText(d, gap)| == gap + 6 + |d|
  {
    AtSplit(s, i, Spaces(gap) + "/* " + d, " */");
    AtSplit(s, i, Spaces(gap) + "/* ", d);
    AtSplit(s, i, Spaces(gap), "/* ");
  }

  /** A comment holding a description is matched, and the description is captured unchanged. */
  lemma CommentFound(s: string, i: nat, d: string, gap: nat)
    requires At(s, i, CommentText(d, gap)) && IsDescription(d)
    ensures DescriptionMatch(s, i) == Some(Comment(d, i + |CommentText(d, gap)|))
  {
    CommentPieces(s, i, d, gap);
    var o := i + gap;
    var st := o + 3;
    var q := st + |d|;
    AtRun(s, i, Spaces(gap), Whitespace);
    AtIndex(s, o, "/* ", 0);
    AtIndex(s, o, "/* ", 1);
    AtIndex(s, o, "/* ", 2);
    AtIndex(s, q, " */", 0);
    AtIndex(s, q, " */", 1);
    AtIndex(s, q, " */", 2);
    AtIndex(s, st, d, 0);
    AtIndex(s, st, d, |d| - 1);
    AtSlice(s, st, d);
    forall k | st <= k < q + 1 ensures !ClosesAt(s, k) {
      if k + 1 < q {
        AtIndex(s, st, d, k - st);
        AtIndex(s, st, d, k + 1 - st);
        assert !ClosesAt(d, k - st);
      }
    }
    forall k | st <= k < q ensures !CloseAhead(s, k) {
      CloseAheadInside(s, st, q, q + 1, k);
    }
    var x := CommentBounds(o, st, q, q + 1);
    assert Run(s, q, q + 1, Whitespace);
    assert Run(s, o + 2, st, Whitespace);
    DescriptionMatchComplete(s, i, x);
  }

  /** What may follow a line without a comment: the end of the text, or a line break and the next line's name. */
  predicate NextLineAt(s: string, i: nat) {
    i == |s| || (i + 1 < |s| && s[i] == '\n' && IsWord(s[i + 1]))
  }

  /** Nothing but whitespace and the next line's name follows: no comment matches. */
  lemma NoComment(s: string, i: nat)
    requires i <= |s| && NextLineAt(s, i)
    ensures DescriptionMatch(s, i) == None
  {
    if i < |s| {
      SkipWhileUnique(s, i, i + 1, Whitespace);
    }
  }

  /** StatusMatch when the required part matches and no comment follows it. */
  lemma StatusMatchPlain(s: string, p: nat, head: Head, st: Status)
    requires p <= |s| && HeadMatch(s, p) == Some(head) && DescriptionMatch(s, head.next) == None
    requires st == Status(head.name, head.code, None)
    ensures StatusMatch(s, p) == Some(Match(st, head.next))
  {
    StatusMatchOfHead(s, p, head);
  }

  /** StatusMatch when the required part matches and a comment follows it. */
  lemma StatusMatchCommented(s: string, p: nat, head: Head, c: Comment, st: Status)
    requires p <= |s| && HeadMatch(s, p) == Some(head) && DescriptionMatch(s, head.next) == Some(c)
    requires st == Status(head.name, head.code, Some(c.text))
    ensures StatusMatch(s, p) == Some(Match(st, c.end))
  {
    StatusMatchOfHead(s, p, head);
  }

  /** A line without a comment, followed by the end of the text or by the next line. */
  lemma PlainLineMatch(s: string, p: nat, st: Status, gap: nat)
    requires p <= |s| && AtLineStart(s, p) && At(s, p, Entry(st, gap)) && IsName(st.name)
    requires st.description == None && NextLineAt(s, p + |Entry(st, gap)|)
    ensures StatusMatch(s, p) == Some(Match(st, p + |Entry(st, gap)|))
  {
    var head := Head(st.name, st.code, p + |Entry(st, gap)|);
    EntryHead(s, p, st, gap, head.next);
    NoComment(s, head.next);
    StatusMatchPlain(s, p, head, st);
    assert StatusMatch(s, p).value == Match(st, p + |Entry(st, gap)|);
  }

  /** An entry followed by a comment: the required part matches, and so does the comment after it. */
  lemma EntryAndComment(s: string, p: nat, st: Status, gap: nat, d: string, commentGap: nat, e: nat)
    requires p <= |s| && AtLineStart(s, p) && At(s, p, Entry(st, gap)) && IsName(st.name) && IsDescription(d)
    requires e == p + |Entry(st, gap)| && At(s, e, CommentText(d, commentGap))
    ensures HeadMatch(s, p) == Some(Head(st.name, st.code, e))
    ensures DescriptionMatch(s, e) == Some(Comment(d, e + |CommentText(d, commentGap)|))
  {
    EntryHead(s, p, st, gap, e);
    CommentFound(s, e, d, commentGap);
  }

  /** A line with a comment. */
  lemma CommentedLineMatch(s: string, p: nat, st: Status, gap: nat, d: string, commentGap: nat)
    requires p <= |s| && AtLineStart(s, p) && At(s, p, Entry(st, gap)) && IsName(st.name)
    requires st.description == Some(d) && IsDescription(d)
    requires At(s, p + |Entry(st, gap)|, CommentText(d, commentGap))
    ensures StatusMatch(s, p) == Some(Match(st, p + |Entry(st, gap)| + |CommentText(d, commentGap)|))
  {
    var e := p + |Entry(st, gap)|;
    var c := Comment(d, e + |CommentText(d, commentGap)|);
    EntryAndComment(s, p, st, gap, d, commentGap, e);
    StatusMatchCommented(s, p, Head(st.name, st.code, e), c, st);
    assert StatusMatch(s, p).value == Match(st, c.end);
  }

  /** A line at a line start is one match, yielding the line's record. */
  lemma LineMatch(s: string, p: nat, l: Line)
    requires p <= |s| && AtLineStart(s, p) && At(s, p, LineText(l)) && Extracted(l.status)
    requires l.status.description.None? ==> NextLineAt(s, p + |LineText(l)|)
    ensures StatusMatch(s, p) == Some(Match(l.status, p + |LineText(l)|))
  {
    var entry := Entry(l.status, l.nameGap);
    match l.status.description
    case None =>
      assert LineText(l) == entry;
      PlainLineMatch(s, p, l.status, l.nameGap);
      assert StatusMatch(s, p).value == Match(l.status, p + |LineText(l)|);
    case Some(d) =>
      var comment := CommentText(d, l.commentGap);
      assert LineText(l) == entry + comment;
      AtSplit(s, p, entry, comment);
      CommentedLineMatch(s, p, l.status, l.nameGap, d, l.commentGap);
      assert StatusMatch(s, p).value == Match(l.status, p + |LineText(l)|);
  }

  // ---------------------------------------------------------------------------
  // The whole text
  // ---------------------------------------------------------------------------

  /** Where StatusMatch fails, the search moves on by one position. */
  lemma StatusMatchesMiss(s: string, from: nat)
    requires from < |s| && StatusMatch(s, from).None?
    ensures Advances(StatusMatch, s)
    ensures Matches(StatusMatch, s, from) == Matches(StatusMatch, s, from + 1)
  {
    StatusMatchAdvances(s);
    MatchesMiss(StatusMatch, s, from);
  }

  /** Where StatusMatch matches, the match is listed and the search resumes at its end. */
  lemma StatusMatchesHit(s: string, from: nat, m: Match)
    requires from < |s| && StatusMatch(s, from) == Some(m)
    ensures Advances(StatusMatch, s)
    ensures Matches(StatusMatch, s, from) == [Found(from, m)] + Matches(StatusMatch, s, m.end)
  {
    StatusMatchAdvances(s);
    MatchesHit(StatusMatch, s, from, m);
  }

  /** A line at a line start is listed as one match, and the search resumes at the line's end. */
  lemma LineMatches(s: string, p: nat, l: Line, e: nat)
    requires p <= |s| && AtLineStart(s, p) && At(s, p, LineText(l)) && Extracted(l.status)
    requires e == p + |LineText(l)|
    requires l.status.description.None? ==> NextLineAt(s, e)
    ensures e <= |s|
    ensures Matches(StatusMatch, s, p) == [Found(p, Match(l.status, e))] + Matches(StatusMatch, s, e)
  {
    LineMatch(s, p, l);
    assert StatusMatch(s, p).value == Match(l.status, e);
    StatusMatchesHit(s, p, Match(l.status, e));
  }

  /** A text of lines starts with the first name. */
  lemma HeaderStart(lines: seq<Line>)
    requires |lines| > 0 && IsName(lines[0].status.name)
    ensures |Header(lines)| > 0 && IsWord(Header(lines)[0])
  {
    var t := LineText(lines[0]);
    assert t[..|lines[0].status.name|][0] == t[0];
    assert InClass(lines[0].status.name[0], Word);
  }

  /** The text of several lines at `p`: the first line, a line break at its end, the rest of the lines. */
  lemma HeaderSplit(s: string, p: nat, lines: seq<Line>) returns (e: nat)
    requires |lines| > 1 && At(s, p, Header(lines)) && IsName(lines[1].status.name)
    ensures e == p + |LineText(lines[0])| && At(s, p, LineText(lines[0]))
    ensures e + 1 < |s| && s[e] == '\n' && IsWord(s[e + 1]) && !IsNewline(s[e - 1])
    ensures At(s, e + 1, Header(lines[1..]))
    ensures e + 1 + |Header(lines[1..])| == p + |Header(lines)|
  {
    var first := LineText(lines[0]);
    var rest := Header(lines[1..]);
    e := p + |first|;
    AtSplit(s, p, first + "\n", rest);
    AtSplit(s, p, first, "\n");
    AtIndex(s, e, "\n", 0);
    HeaderStart(lines[1..]);
    AtIndex(s, e + 1, rest, 0);
    AtIndex(s, p, first, |first| - 1);
  }

  /** Away from a line start StatusMatch fails, so the search moves on by one position. */
  lemma StatusMatchesSkip(s: string, from: nat)
    requires from < |s| && !AtLineStart(s, from)
    ensures Advances(StatusMatch, s)
    ensures Matches(StatusMatch, s, from) == Matches(StatusMatch, s, from + 1)
  {
    StatusMatchesMiss(s, from);
  }

  /** The first of several lines is one match, and the search resumes at the start of the next line. */
  lemma HeaderStep(s: string, p: nat, lines: seq<Line>) returns (e: nat)
    requires p <= |s| && AtLineStart(s, p) && At(s, p, Header(lines)) && |lines| > 1
    requires Extracted(lines[0].status) && Extracted(lines[1].status)
    ensures e == p + |LineText(lines[0])| && e + 1 < |s|
    ensures AtLineStart(s, e + 1) && At(s, e + 1, Header(lines[1..]))
    ensures e + 1 + |Header(lines[1..])| == p + |Header(lines)|
    ensures Matches(StatusMatch, s, p) == [Found(p, Match(lines[0].status, e))] + Matches(StatusMatch, s, e + 1)
  {
    e := HeaderSplit(s, p, lines);
    LineMatches(s, p, lines[0], e);
    StatusMatchesSkip(s, e);
  }

  /** The matches `r` yield the records of `lines`, one each, in order. */
  predicate Yields(r: seq<Found>, lines: seq<Line>) {
    |r| == |lines| && forall i | 0 <= i < |lines| :: r[i].hit.status == lines[i].status
  }

  /** A match yielding the first line's record, then matches yielding the rest. */
  lemma YieldsCons(f: Found, rest: seq<Found>, lines: seq<Line>)
    requires |lines| > 0 && f.hit.status == lines[0].status && Yields(rest, lines[1..])
    ensures Yields([f] + rest, lines)
  {
    var r := [f] + rest;
    forall i | 0 <= i < |lines| ensures r[i].hit.status == lines[i].status {
      if i > 0 {
        assert r[i] == rest[i - 1];
        assert lines[1..][i - 1] == lines[i];
      }
    }
  }

  /** From a line start on, the matches of a text of lines are one per line, each yielding its line's record. */
  lemma {:induction false} MatchesHeader(s: string, p: nat, lines: seq<Line>)
    requires p <= |s| && AtLineStart(s, p) && At(s, p, Header(lines)) && p + |Header(lines)| == |s|
    requires forall i | 0 <= i < |lines| :: Extracted(lines[i].status)
    ensures Yields(Matches(StatusMatch, s, p), lines)
    decreases |lines|
  {
    if |lines| == 1 {
      LineMatches(s, p, lines[0], |s|);
      YieldsCons(Found(p, Match(lines[0].status, |s|)), [], lines);
    } else if |lines| > 1 {
      var e := HeaderStep(s, p, lines);
      forall i | 0 <= i < |lines[1..]| ensures Extracted(lines[1..][i].status) {
        assert lines[1..][i] == lines[i + 1];
      }
      MatchesHeader(s, e + 1, lines[1..]);
      YieldsCons(Found(p, Match(lines[0].status, e)), Matches(StatusMatch, s, e + 1), lines);
    }
  }

  /** The extractor reads a text of unindented lines in the documented form back to the records they were written from. */
  lemma ParseHeader(lines: seq<Line>)
    requires forall i | 0 <= i < |lines| :: Extracted(lines[i].status)
    ensures Parse(Header(lines)) == Statuses(lines)
  {
    var s := Header(lines);
    StatusMatchAdvances(s);
    AtSuffix(s, 0);
    assert s[0..] == s;
    MatchesHeader(s, 0, lines);
  }

  // ---------------------------------------------------------------------------
  // The example in the documentation of `descriptionMatch`
  // ---------------------------------------------------------------------------

  lemma NoErrorExtracted()
    ensures Extracted(NoError)
  {
  }

  lemma UnimplementedExtracted()
    ensures Extracted(Unimplemented)
  {
  }

  /** The two lines of the example, as the documentation aligns them, give the two records, descriptions trimmed. */
  lemma DocExample()
    ensures Parse(Header([Line(NoError, 28, 7), Line(Unimplemented, 22, 6)])) == [NoError, Unimplemented]
  {
    var lines := [Line(NoError, 28, 7), Line(Unimplemented, 22, 6)];
    NoErrorExtracted();
    UnimplementedExtracted();
    ParseHeader(lines);
    assert Statuses(lines) == [NoError, Unimplemented];
  }
}
