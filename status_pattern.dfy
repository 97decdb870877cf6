// The record idiom read declaratively, as the RegexBuilder pattern of
// StatusSequence.swift describes it: which spans of the text the pattern
// matches, with no scanning order in sight. The lemmas show that the scanner
// in StatusSequence finds exactly these matches.
module StatusPattern {
  import opened StatusRecord
  import opened Characters
  import opened Decimal
  import opened StatusSequence

  // ---------------------------------------------------------------------------
  // The pattern as a description of spans
  // ---------------------------------------------------------------------------

  // The negative lookahead's body, `ZeroOrMore(.whitespace); closeComment`,
  // matches at `k`.
  ghost predicate CloseAhead(s: string, k: nat) {
    exists m: nat :: Run(s, k, m, Whitespace) && ClosesAt(s, m)
  }

  // Where the pieces of one match of `descriptionMatch` lie: the `/*` at
  // `open`, the captured text `s[textStart..textEnd]`, the `*/` at `close`.
  datatype CommentBounds = CommentBounds(open: nat, textStart: nat, textEnd: nat, close: nat)

  // `descriptionMatch` matches from `i` with these bounds: whitespace, `/*`,
  // whitespace, one or more characters at none of which the lookahead body
  // matches (captured), whitespace, `*/`. The whitespace before the capture
  // is the longest run: the greedy `ZeroOrMore` takes it, and a shorter one
  // never leads to a match that the longest one misses.
  ghost predicate CommentBoundsAt(s: string, i: nat, x: CommentBounds) {
    && Run(s, i, x.open, Whitespace) && OpensAt(s, x.open)
    && Run(s, x.open + 2, x.textStart, Whitespace)
    && (x.textStart == |s| || !IsWhitespace(s[x.textStart]))
    && x.textStart < x.textEnd
    && (forall k | x.textStart <= k < x.textEnd :: !CloseAhead(s, k))
    && Run(s, x.textEnd, x.close, Whitespace) && ClosesAt(s, x.close)
  }

  // `descriptionMatch` matches from `i`, captures `text` and ends at `end`.
  ghost predicate CommentAt(s: string, i: nat, text: string, end: nat) {
    exists x: CommentBounds ::
      CommentBoundsAt(s, i, x) && text == s[x.textStart..x.textEnd] && end == x.close + 2
  }

  // `nameMatch` matches `s[p..c]` and captures `s[a..b]`: the start of a line,
  // whitespace, one or more word characters, whitespace.
  ghost predicate NameAt(s: string, p: nat, a: nat, b: nat, c: nat) {
    && p <= |s| && AtLineStart(s, p)
    && Run(s, p, a, Whitespace) && a < b && Run(s, a, b, Word) && Run(s, b, c, Whitespace)
  }

  // `codeMatch` matches `s[i..g]` and its `TryCapture` turns the literal
  // `s[d..f]` into `code`: whitespace, an optional `-` and one or more digits
  // that `OSStatus(_:)` accepts, whitespace.
  ghost predicate CodeAt(s: string, i: nat, d: nat, f: nat, g: nat, code: OSStatus) {
    && Run(s, i, d, Whitespace) && d <= f <= |s| && IsCodeLiteral(s[d..f])
    && ParseOSStatus(s[d..f]) == Some(code)
    && Run(s, f, g, Whitespace)
  }

  // Where the pieces of the required part of `statusMatch` lie.
  datatype HeadBounds = HeadBounds(nameStart: nat, nameEnd: nat, equals: nat, codeStart: nat, codeEnd: nat, comma: nat)

  // The required part of `statusMatch` matches at `p` with these bounds:
  // `nameMatch`, `=`, `codeMatch`, `,`.
  ghost predicate HeadAt(s: string, p: nat, x: HeadBounds, code: OSStatus) {
    && NameAt(s, p, x.nameStart, x.nameEnd, x.equals)
    && x.equals < |s| && s[x.equals] == '='
    && CodeAt(s, x.equals + 1, x.codeStart, x.codeEnd, x.comma, code)
    && x.comma < |s| && s[x.comma] == ','
  }

  // `Optionally { descriptionMatch }` from `i`: when the comment matches it is
  // taken, and otherwise the match ends at `i` with no description.
  ghost predicate OptionalCommentAt(s: string, i: nat, m: Match) {
    match m.status.description
    case Some(text) => CommentAt(s, i, text, m.end)
    case None => m.end == i && forall text, end :: !CommentAt(s, i, text, end)
  }

  // `statusMatch` matches at `p` and yields `m`.
  ghost predicate RecordAt(s: string, p: nat, m: Match) {
    exists x: HeadBounds ::
      && HeadAt(s, p, x, m.status.code)
      && m.status.name == s[x.nameStart..x.nameEnd]
      && OptionalCommentAt(s, x.comma + 1, m)
  }

  // ---------------------------------------------------------------------------
  // Each scanning step finds the only span the pattern allows
  // ---------------------------------------------------------------------------

  // A run of `kind` characters that no `kind` character follows is the one
  // SkipWhile finds.
  lemma SkipWhileUnique(s: string, i: nat, j: nat, kind: CharClass)
    requires Run(s, i, j, kind) && (j == |s| || !InClass(s[j], kind))
    ensures SkipWhile(s, i, kind) == j
  {
  }

  // A `*/` with none before it from `i` on is the one FindClose finds.
  lemma FindCloseUnique(s: string, i: nat, j: nat)
    requires i <= j && ClosesAt(s, j) && forall k | i <= k < j :: !ClosesAt(s, k)
    ensures FindClose(s, i) == Some(j)
  {
  }

  // A whitespace run ending at `hi` that starts at `lo` or after a
  // non-whitespace character is the one TrimTrailing finds.
  lemma TrimTrailingUnique(s: string, lo: nat, q: nat, hi: nat)
    requires lo <= q <= hi <= |s| && Run(s, q, hi, Whitespace)
    requires q == lo || !IsWhitespace(s[q - 1])
    ensures TrimTrailing(s, lo, hi) == q
  {
    var r := TrimTrailing(s, lo, hi);
    if r < q {
      RunAt(s, r, hi, Whitespace, q - 1);
    } else if r > q {
      RunAt(s, q, hi, Whitespace, r - 1);
    }
  }

  // Inside a comment whose first `*/` is at `j` and whose text `s[st..q]` is
  // not empty, the lookahead body matches exactly from `q` on.
  lemma CloseAheadInside(s: string, st: nat, q: nat, j: nat, k: nat)
    requires st < q <= j && ClosesAt(s, j) && forall k' | st <= k' < j :: !ClosesAt(s, k')
    requires Run(s, q, j, Whitespace) && !IsWhitespace(s[q - 1])
    requires st <= k <= j
    ensures CloseAhead(s, k) <==> q <= k
  {
    if q <= k {
      RunSub(s, q, j, Whitespace, k, j);
    } else if CloseAhead(s, k) {
      var m: nat :| Run(s, k, m, Whitespace) && ClosesAt(s, m);
      if m > j {
        RunAt(s, k, m, Whitespace, j);
      } else if m == j {
        RunAt(s, k, m, Whitespace, q - 1);
      }
    }
  }

  // ---------------------------------------------------------------------------
  // `descriptionMatch`
  // ---------------------------------------------------------------------------

  // The bounds DescriptionMatch scans for are the bounds of a match.
  lemma DescriptionScanBounds(s: string, i: nat) returns (x: CommentBounds)
    requires i <= |s| && DescriptionMatch(s, i).Some?
    ensures CommentBoundsAt(s, i, x)
    ensures DescriptionMatch(s, i) == Some(Comment(s[x.textStart..x.textEnd], x.close + 2))
  {
    var o := SkipWhile(s, i, Whitespace);
    var st := SkipWhile(s, o + 2, Whitespace);
    var j := FindClose(s, st).value;
    var q := TrimTrailing(s, st, j);
    if q == st {
      RunAt(s, q, j, Whitespace, st);
    }
    forall k | st <= k < q ensures !CloseAhead(s, k) {
      CloseAheadInside(s, st, q, j, k);
    }
    x := CommentBounds(o, st, q, j);
  }

  // A match of `descriptionMatch` from its bounds.
  lemma CommentAtIntro(s: string, i: nat, x: CommentBounds)
    requires CommentBoundsAt(s, i, x)
    ensures CommentAt(s, i, s[x.textStart..x.textEnd], x.close + 2)
  {
  }

  // The bounds of a match of `descriptionMatch`.
  lemma CommentAtBounds(s: string, i: nat, text: string, end: nat) returns (x: CommentBounds)
    requires CommentAt(s, i, text, end)
    ensures CommentBoundsAt(s, i, x) && text == s[x.textStart..x.textEnd] && end == x.close + 2
  {
    x :| CommentBoundsAt(s, i, x) && text == s[x.textStart..x.textEnd] && end == x.close + 2;
  }

  // What DescriptionMatch finds is a match of `descriptionMatch`.
  lemma DescriptionMatchSound(s: string, i: nat)
    requires i <= |s| && DescriptionMatch(s, i).Some?
    ensures CommentAt(s, i, DescriptionMatch(s, i).value.text, DescriptionMatch(s, i).value.end)
  {
    var x := DescriptionScanBounds(s, i);
    CommentAtIntro(s, i, x);
  }

  // A match of `descriptionMatch` with given bounds is the one
  // DescriptionMatch finds.
  lemma DescriptionMatchComplete(s: string, i: nat, x: CommentBounds)
    requires CommentBoundsAt(s, i, x)
    ensures DescriptionMatch(s, i) == Some(Comment(s[x.textStart..x.textEnd], x.close + 2))
  {
    var o, st, q, j := x.open, x.textStart, x.textEnd, x.close;
    SkipWhileUnique(s, i, o, Whitespace);
    SkipWhileUnique(s, o + 2, st, Whitespace);
    forall k: nat | st <= k < j ensures !ClosesAt(s, k) {
      if k < q {
        assert Run(s, k, k, Whitespace);
        assert ClosesAt(s, k) ==> CloseAhead(s, k);
        assert !CloseAhead(s, k);
      } else {
        RunAt(s, q, j, Whitespace, k);
      }
    }
    FindCloseUnique(s, st, j);
    var last: nat := q - 1;
    RunPrepend(s, last, j, Whitespace);
    assert Run(s, last, j, Whitespace) ==> CloseAhead(s, last);
    assert !CloseAhead(s, last);
    TrimTrailingUnique(s, st, q, j);
  }

  // Every match of `descriptionMatch` is the one DescriptionMatch finds.
  lemma CommentAtFound(s: string, i: nat, text: string, end: nat)
    requires CommentAt(s, i, text, end)
    ensures DescriptionMatch(s, i) == Some(Comment(text, end))
  {
    var x := CommentAtBounds(s, i, text, end);
    DescriptionMatchComplete(s, i, x);
  }

  // DescriptionMatch is `descriptionMatch`: it yields exactly the match the
  // pattern has at `i`, and nothing when the pattern has none.
  lemma DescriptionMatchIsCommentAt(s: string, i: nat, text: string, end: nat)
    requires i <= |s|
    ensures DescriptionMatch(s, i) == Some(Comment(text, end)) <==> CommentAt(s, i, text, end)
  {
    if DescriptionMatch(s, i) == Some(Comment(text, end)) {
      DescriptionMatchSound(s, i);
    }
    if CommentAt(s, i, text, end) {
      CommentAtFound(s, i, text, end);
    }
  }

  // DescriptionMatchIsCommentAt for every text and end at once.
  lemma DescriptionMatchEverywhere(s: string, i: nat)
    requires i <= |s|
    ensures forall text, end :: DescriptionMatch(s, i) == Some(Comment(text, end)) <==> CommentAt(s, i, text, end)
  {
    forall text, end
      ensures DescriptionMatch(s, i) == Some(Comment(text, end)) <==> CommentAt(s, i, text, end)
    {
      DescriptionMatchIsCommentAt(s, i, text, end);
    }
  }

  // ---------------------------------------------------------------------------
  // `nameMatch` and `codeMatch`
  // ---------------------------------------------------------------------------

  // What NameMatch finds is a match of `nameMatch`.
  lemma NameMatchSound(s: string, p: nat)
    requires p <= |s| && NameMatch(s, p).Some?
    ensures NameAt(s, p, NameMatch(s, p).value.start, NameMatch(s, p).value.end, NameMatch(s, p).value.next)
  {
  }

  // A match of `nameMatch` followed by `=` is the one NameMatch finds.
  lemma NameMatchComplete(s: string, p: nat, a: nat, b: nat, c: nat)
    requires NameAt(s, p, a, b, c) && c < |s| && s[c] == '='
    ensures NameMatch(s, p) == Some(NameSpan(a, b, c))
  {
    assert InClass(s[a], Word) && !InClass(s[a], Whitespace);
    SkipWhileUnique(s, p, a, Whitespace);
    assert b < c ==> InClass(s[b], Whitespace);
    SkipWhileUnique(s, a, b, Word);
    SkipWhileUnique(s, b, c, Whitespace);
  }

  // What CodeMatch finds is a match of `codeMatch`; the literal it read lies
  // at `s[d..f]`.
  lemma CodeMatchSound(s: string, i: nat) returns (d: nat, f: nat)
    requires i <= |s| && CodeMatch(s, i).Some?
    ensures CodeAt(s, i, d, f, CodeMatch(s, i).value.next, CodeMatch(s, i).value.code)
  {
    d := SkipWhile(s, i, Whitespace);
    var e := if d < |s| && s[d] == '-' then d + 1 else d;
    f := SkipWhile(s, e, Digit);
    var t := s[d..f];
    assert forall k | e - d <= k < |t| :: t[k] == s[d + k];
    if e == d + 1 {
      assert t[1..] == s[e..f];
    } else {
      assert t == s[e..f];
    }
  }

  // A match of `codeMatch` followed by `,` is the one CodeMatch finds.
  lemma CodeMatchComplete(s: string, i: nat, d: nat, f: nat, g: nat, code: OSStatus)
    requires CodeAt(s, i, d, f, g, code) && g < |s| && s[g] == ','
    ensures CodeMatch(s, i) == Some(CodeSpan(code, g))
  {
    var t := s[d..f];
    assert t[0] == s[d];
    SkipWhileUnique(s, i, d, Whitespace);
    var e := if s[d] == '-' then d + 1 else d;
    forall k | e <= k < f ensures InClass(s[k], Digit) {
      assert s[k] == t[k - d];
      if e == d + 1 {
        assert t[1..][k - e] == t[k - d];
      }
    }
    assert f < g ==> InClass(s[f], Whitespace);
    SkipWhileUnique(s, e, f, Digit);
    SkipWhileUnique(s, f, g, Whitespace);
  }

  // ---------------------------------------------------------------------------
  // The required part of `statusMatch`
  // ---------------------------------------------------------------------------

  // HeadMatch from the matches of its pieces.
  lemma HeadMatchOfSpans(s: string, p: nat, name: NameSpan, code: CodeSpan)
    requires p <= |s| && NameMatch(s, p) == Some(name) && name.next < |s| && s[name.next] == '='
    requires CodeMatch(s, name.next + 1) == Some(code) && code.next < |s| && s[code.next] == ','
    ensures HeadMatch(s, p) == Some(Head(s[name.start..name.end], code.code, code.next + 1))
  {
  }

  // The matches of the pieces HeadMatch put together.
  lemma HeadMatchPieces(s: string, p: nat) returns (name: NameSpan, code: CodeSpan)
    requires p <= |s| && HeadMatch(s, p).Some?
    ensures NameMatch(s, p) == Some(name) && name.next < |s| && s[name.next] == '='
    ensures CodeMatch(s, name.next + 1) == Some(code) && code.next < |s| && s[code.next] == ','
    ensures HeadMatch(s, p) == Some(Head(s[name.start..name.end], code.code, code.next + 1))
  {
    name := NameMatch(s, p).value;
    code := CodeMatch(s, name.next + 1).value;
  }

  // What HeadMatch finds is a match of the required part of `statusMatch`.
  lemma HeadMatchSound(s: string, p: nat) returns (x: HeadBounds)
    requires p <= |s| && HeadMatch(s, p).Some?
    ensures HeadAt(s, p, x, HeadMatch(s, p).value.code)
    ensures HeadMatch(s, p).value.name == s[x.nameStart..x.nameEnd]
    ensures HeadMatch(s, p).value.next == x.comma + 1
  {
    var name, code := HeadMatchPieces(s, p);
    NameMatchSound(s, p);
    var d, f := CodeMatchSound(s, name.next + 1);
    x := HeadBounds(name.start, name.end, name.next, d, f, code.next);
  }

  // A match of the required part of `statusMatch` is the one HeadMatch finds.
  lemma HeadMatchComplete(s: string, p: nat, x: HeadBounds, code: OSStatus)
    requires HeadAt(s, p, x, code)
    ensures HeadMatch(s, p) == Some(Head(s[x.nameStart..x.nameEnd], code, x.comma + 1))
  {
    NameMatchComplete(s, p, x.nameStart, x.nameEnd, x.equals);
    CodeMatchComplete(s, x.equals + 1, x.codeStart, x.codeEnd, x.comma, code);
    HeadMatchOfSpans(s, p, NameSpan(x.nameStart, x.nameEnd, x.equals), CodeSpan(code, x.comma));
  }

  // ---------------------------------------------------------------------------
  // `Optionally { descriptionMatch }` and `statusMatch`
  // ---------------------------------------------------------------------------

  // What OptionalDescription yields is what `Optionally { descriptionMatch }` yields.
  lemma OptionalDescriptionSound(s: string, head: Head)
    requires head.next <= |s|
    ensures OptionalCommentAt(s, head.next, OptionalDescription(s, head))
  {
    DescriptionMatchEverywhere(s, head.next);
  }

  // Whatever `Optionally { descriptionMatch }` yields is what OptionalDescription yields.
  lemma OptionalDescriptionComplete(s: string, head: Head, m: Match)
    requires head.next <= |s| && OptionalCommentAt(s, head.next, m)
    requires m.status.name == head.name && m.status.code == head.code
    ensures OptionalDescription(s, head) == m
  {
    DescriptionMatchEverywhere(s, head.next);
  }

  // OptionalDescription is `Optionally { descriptionMatch }`.
  lemma OptionalDescriptionIsOptionalCommentAt(s: string, head: Head, m: Match)
    requires head.next <= |s|
    ensures OptionalDescription(s, head) == m <==>
      m.status.name == head.name && m.status.code == head.code && OptionalCommentAt(s, head.next, m)
  {
    OptionalDescriptionSound(s, head);
    if m.status.name == head.name && m.status.code == head.code && OptionalCommentAt(s, head.next, m) {
      OptionalDescriptionComplete(s, head, m);
    }
  }

  // A match of `statusMatch` from the bounds of its required part.
  lemma RecordAtIntro(s: string, p: nat, m: Match, x: HeadBounds, i: nat)
    requires HeadAt(s, p, x, m.status.code) && i == x.comma + 1
    requires m.status.name == s[x.nameStart..x.nameEnd] && OptionalCommentAt(s, i, m)
    ensures RecordAt(s, p, m)
  {
  }

  // The bounds of the required part of a match of `statusMatch`.
  lemma RecordAtBounds(s: string, p: nat, m: Match) returns (x: HeadBounds)
    requires RecordAt(s, p, m)
    ensures HeadAt(s, p, x, m.status.code)
    ensures m.status.name == s[x.nameStart..x.nameEnd] && OptionalCommentAt(s, x.comma + 1, m)
  {
    x :|
      && HeadAt(s, p, x, m.status.code)
      && m.status.name == s[x.nameStart..x.nameEnd]
      && OptionalCommentAt(s, x.comma + 1, m);
  }

  // StatusMatch once the required part has matched.
  lemma StatusMatchOfHead(s: string, p: nat, head: Head)
    requires p <= |s| && HeadMatch(s, p) == Some(head)
    ensures StatusMatch(s, p) == Some(OptionalDescription(s, head))
  {
  }

  // StatusMatch from the matches of the required part and of the optional comment.
  lemma StatusMatchOfParts(s: string, p: nat, head: Head, m: Match, i: nat)
    requires p <= |s| && HeadMatch(s, p) == Some(head)
    requires m.status.name == head.name && m.status.code == head.code
    requires i == head.next && OptionalCommentAt(s, i, m)
    ensures StatusMatch(s, p) == Some(m)
  {
    OptionalDescriptionComplete(s, head, m);
    StatusMatchOfHead(s, p, head);
  }

  // What StatusMatch finds is a match of `statusMatch`.
  lemma StatusMatchSound(s: string, p: nat)
    requires StatusMatch(s, p).Some?
    ensures RecordAt(s, p, StatusMatch(s, p).value)
  {
    var head := HeadMatch(s, p).value;
    StatusMatchOfHead(s, p, head);
    var x := HeadMatchSound(s, p);
    OptionalDescriptionSound(s, head);
    RecordAtIntro(s, p, OptionalDescription(s, head), x, head.next);
  }

  // Every match of `statusMatch` is the one StatusMatch finds.
  lemma StatusMatchComplete(s: string, p: nat, m: Match)
    requires RecordAt(s, p, m)
    ensures StatusMatch(s, p) == Some(m)
  {
    var x := RecordAtBounds(s, p, m);
    StatusMatchOfBounds(s, p, x, m);
  }

  // StatusMatch from the bounds of the required part and the optional comment after it.
  lemma StatusMatchOfBounds(s: string, p: nat, x: HeadBounds, m: Match)
    requires HeadAt(s, p, x, m.status.code)
    requires m.status.name == s[x.nameStart..x.nameEnd] && OptionalCommentAt(s, x.comma + 1, m)
    ensures StatusMatch(s, p) == Some(m)
  {
    HeadMatchComplete(s, p, x, m.status.code);
    StatusMatchOfParts(s, p, Head(s[x.nameStart..x.nameEnd], m.status.code, x.comma + 1), m, x.comma + 1);
  }

  // StatusMatch is `statusMatch`: it yields exactly the match the pattern has
  // at `p`, and nothing when the pattern has none.
  lemma StatusMatchIsRecordAt(s: string, p: nat, m: Match)
    ensures StatusMatch(s, p) == Some(m) <==> RecordAt(s, p, m)
  {
    if StatusMatch(s, p) == Some(m) {
      StatusMatchSound(s, p);
    }
    if RecordAt(s, p, m) {
      StatusMatchComplete(s, p, m);
    }
  }
}
