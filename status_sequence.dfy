// `StatusSequence(parsing:)`: the records found in the text of SecBase.h.
//
// The source states the record idiom as a RegexBuilder pattern and collects
// its non-overlapping matches from left to right. Here the same pattern is a
// scanner over the characters of the text; every piece of the pattern is a
// function below, named after the piece it stands for.
module StatusSequence {
  import opened StatusRecord
  import opened Characters
  import opened Decimal

  // ---------------------------------------------------------------------------
  // What the extractor guarantees about every record it emits
  // ---------------------------------------------------------------------------

  // A name: one or more word characters.
  predicate IsName(t: string) {
    |t| > 0 && AllOf(t, Word)
  }

  // `*/` starts at position `k` of `t`.
  predicate ClosesAt(t: string, k: int) {
    0 <= k && k + 1 < |t| && t[k] == '*' && t[k + 1] == '/'
  }

  // `/*` starts at position `k` of `t`.
  predicate OpensAt(t: string, k: nat) {
    k + 1 < |t| && t[k] == '/' && t[k + 1] == '*'
  }

  // A description: non-empty, neither starting nor ending with whitespace,
  // and free of `*/`.
  predicate IsDescription(t: string) {
    && |t| > 0
    && !IsWhitespace(t[0])
    && !IsWhitespace(t[|t| - 1])
    && forall k | 0 <= k < |t| :: !ClosesAt(t, k)
  }

  // What every emitted record satisfies (the `Status` type itself demands none of it).
  predicate Extracted(st: Status) {
    IsName(st.name) && (st.description.Some? ==> IsDescription(st.description.value))
  }

  // ---------------------------------------------------------------------------
  // The pieces of the pattern
  // ---------------------------------------------------------------------------

  // `Anchor.startOfLine`: the start of the text, or just after a line terminator.
  predicate AtLineStart(s: string, p: nat)
    requires p <= |s|
  {
    p == 0 || IsNewline(s[p - 1])
  }

  // `s[i..j]` consists of `kind` characters only.
  predicate Run(s: string, i: nat, j: nat, kind: CharClass) {
    i <= j <= |s| && forall k {:trigger InClass(s[k], kind)} | i <= k < j :: InClass(s[k], kind)
  }

  lemma RunAt(s: string, i: nat, j: nat, kind: CharClass, k: nat)
    requires Run(s, i, j, kind) && i <= k < j
    ensures InClass(s[k], kind)
  {
  }

  // Part of a run is a run.
  lemma RunSub(s: string, i: nat, j: nat, kind: CharClass, i': nat, j': nat)
    requires Run(s, i, j, kind) && i <= i' <= j' <= j
    ensures Run(s, i', j', kind)
  {
  }

  // A run followed by one more character of the class is a longer run.
  lemma RunExtend(s: string, i: nat, j: nat, kind: CharClass)
    requires Run(s, i, j, kind) && j < |s| && InClass(s[j], kind)
    ensures Run(s, i, j + 1, kind)
  {
  }

  // A run one character longer at the front is a run exactly when that
  // character belongs to the class.
  lemma RunPrepend(s: string, i: nat, j: nat, kind: CharClass)
    requires i < j && Run(s, i + 1, j, kind)
    ensures Run(s, i, j, kind) <==> InClass(s[i], kind)
  {
  }

  // The end of the longest run of `kind` characters from `i`: a greedy `ZeroOrMore(kind)`.
  function SkipWhile(s: string, i: nat, kind: CharClass): (j: nat)
    requires i <= |s|
    ensures Run(s, i, j, kind)
    ensures j == |s| || !InClass(s[j], kind)
    decreases |s| - i
  {
    if i < |s| && InClass(s[i], kind) then SkipWhile(s, i + 1, kind) else i
  }

  // Where the first `*/` at or after `i` starts, if anywhere.
  function FindClose(s: string, i: nat): (r: Option<nat>)
    requires i <= |s|
    ensures r.Some? ==> i <= r.value && ClosesAt(s, r.value)
    ensures forall k | i <= k && (r.None? || k < r.value) :: !ClosesAt(s, k)
    decreases |s| - i
  {
    if i + 1 >= |s| then None
    else if ClosesAt(s, i) then Some(i)
    else FindClose(s, i + 1)
  }

  // The start of the whitespace run that ends at `hi`, not going below `lo`.
  function TrimTrailing(s: string, lo: nat, hi: nat): (q: nat)
    requires lo <= hi <= |s|
    ensures lo <= q && Run(s, q, hi, Whitespace)
    ensures q == lo || !IsWhitespace(s[q - 1])
    decreases hi - lo
  {
    if lo < hi && IsWhitespace(s[hi - 1]) then
      var q := TrimTrailing(s, lo, hi - 1);
      RunExtend(s, q, hi - 1, Whitespace);
      q
    else
      hi
  }

  // A slice that ends before the first `*/` after its start holds no `*/`.
  lemma NoCloseInside(s: string, st: nat, q: nat, j: nat)
    requires st <= q <= j <= |s|
    requires forall k | st <= k < j :: !ClosesAt(s, k)
    ensures forall k | 0 <= k < q - st :: !ClosesAt(s[st..q], k)
  {
    forall k | 0 <= k < q - st ensures !ClosesAt(s[st..q], k) {
      assert ClosesAt(s[st..q], k) ==> ClosesAt(s, st + k);
    }
  }

  // A matched comment: the captured description and where the match ends.
  datatype Comment = Comment(text: string, end: nat)

  // `descriptionMatch` tried at `i`: whitespace, `/*`, whitespace, then the text
  // up to the whitespace before the first `*/`, then that `*/`. It fails when
  // no `/*` follows the whitespace, when no `*/` follows it, and when only
  // whitespace lies between the two.
  function DescriptionMatch(s: string, i: nat): (r: Option<Comment>)
    requires i <= |s|
    ensures r.Some? ==> i < r.value.end <= |s| && IsDescription(r.value.text)
  {
    var o := SkipWhile(s, i, Whitespace);
    if !OpensAt(s, o) then None
    else
      var st := SkipWhile(s, o + 2, Whitespace);
      match FindClose(s, st)
      case None => None
      case Some(j) =>
        if j == st then None
        else
          var q := TrimTrailing(s, st, j);
          NoCloseInside(s, st, q, j);
          Some(Comment(s[st..q], j + 2))
  }

  // What `nameMatch` captured: the name's bounds, and where the match ends.
  datatype NameSpan = NameSpan(start: nat, end: nat, next: nat)

  // `nameMatch` tried at `p`: the start of a line, whitespace, one or more word
  // characters (captured), whitespace.
  function NameMatch(s: string, p: nat): (r: Option<NameSpan>)
    requires p <= |s|
    ensures r.Some? ==> AtLineStart(s, p) && p <= r.value.start < r.value.end <= r.value.next <= |s|
    ensures r.Some? ==> IsName(s[r.value.start..r.value.end])
  {
    if !AtLineStart(s, p) then None
    else
      var a := SkipWhile(s, p, Whitespace);
      var b := SkipWhile(s, a, Word);
      if a == b then None
      else
        assert AllOf(s[a..b], Word) by {
          forall k | 0 <= k < b - a ensures InClass(s[a..b][k], Word) {
            assert s[a..b][k] == s[a + k] && InClass(s[a + k], Word);
          }
        }
        Some(NameSpan(a, b, SkipWhile(s, b, Whitespace)))
  }

  // What `codeMatch` captured: the code, and where the match ends.
  datatype CodeSpan = CodeSpan(code: OSStatus, next: nat)

  // `codeMatch` tried at `i`: whitespace, an optional `-` and one or more
  // digits whose value fits an `OSStatus` (the `TryCapture` fails otherwise),
  // whitespace.
  function CodeMatch(s: string, i: nat): (r: Option<CodeSpan>)
    requires i <= |s|
    ensures r.Some? ==> i < r.value.next <= |s|
  {
    var d := SkipWhile(s, i, Whitespace);
    var e := if d < |s| && s[d] == '-' then d + 1 else d;
    var f := SkipWhile(s, e, Digit);
    if e == f then None
    else
      match ParseOSStatus(s[d..f])
      case None => None
      case Some(code) => Some(CodeSpan(code, SkipWhile(s, f, Whitespace)))
  }

  // What the required part of `statusMatch` captured: the name, the code, and
  // the position just after the comma.
  datatype Head = Head(name: string, code: OSStatus, next: nat)

  // The required part of `statusMatch` tried at `p`: `nameMatch`, `=`,
  // `codeMatch`, `,`.
  function HeadMatch(s: string, p: nat): (r: Option<Head>)
    requires p <= |s|
    ensures r.Some? ==> AtLineStart(s, p) && p < r.value.next <= |s| && IsName(r.value.name)
  {
    match NameMatch(s, p)
    case None => None
    case Some(name) =>
      if !(name.next < |s| && s[name.next] == '=') then None
      else
        match CodeMatch(s, name.next + 1)
        case None => None
        case Some(code) =>
          if !(code.next < |s| && s[code.next] == ',') then None
          else Some(Head(s[name.start..name.end], code.code, code.next + 1))
  }

  // One match of a pattern: the record it yields and where it ends.
  datatype Match = Match(status: Status, end: nat)

  // `Optionally { descriptionMatch }` after the required part: the comment
  // becomes the description when it matches; otherwise the record has none
  // and the match ends after the comma.
  function OptionalDescription(s: string, head: Head): (m: Match)
    requires head.next <= |s|
    ensures m.status.name == head.name && m.status.code == head.code
    ensures head.next <= m.end <= |s|
    ensures m.status.description.Some? ==> IsDescription(m.status.description.value)
  {
    var st := Status(head.name, head.code, None);
    match DescriptionMatch(s, head.next)
    case None => Match(st, head.next)
    case Some(comment) => Match(st.(description := Some(comment.text)), comment.end)
  }

  // `statusMatch` tried at `p`. Every repetition is greedy, and giving back
  // characters never helps the piece that follows, so the match at `p` is
  // unique when it exists. Past the end of the text nothing matches.
  function StatusMatch(s: string, p: nat): (r: Option<Match>)
    ensures r.Some? ==> p <= |s| && AtLineStart(s, p) && p < r.value.end <= |s| && Extracted(r.value.status)
  {
    if p > |s| then None
    else
      match HeadMatch(s, p)
      case None => None
      case Some(head) => Some(OptionalDescription(s, head))
  }

  // ---------------------------------------------------------------------------
  // `matches(of:)`: the non-overlapping matches of a pattern, left to right
  // ---------------------------------------------------------------------------

  // A pattern tried at a position of a text.
  type Pattern = (string, nat) -> Option<Match>

  // Every match the pattern finds in `s` ends after the position it starts
  // at, and inside `s`.
  predicate Advances(pattern: Pattern, s: string) {
    forall p | 0 <= p <= |s| :: pattern(s, p).Some? ==> p < pattern(s, p).value.end <= |s|
  }

  lemma StatusMatchAdvances(s: string)
    ensures Advances(StatusMatch, s)
  {
  }

  // A match together with the position it starts at.
  datatype Found = Found(start: nat, hit: Match)

  // `matches(of:)` from position `from`: try every position in turn; after a
  // match, carry on where it ended. The matches listed start at increasing
  // positions and do not overlap; MatchesCover adds that none is missed.
  function Matches(pattern: Pattern, s: string, from: nat): (r: seq<Found>)
    requires from <= |s| && Advances(pattern, s)
    ensures forall i | 0 <= i < |r| ::
      from <= r[i].start < r[i].hit.end <= |s| && pattern(s, r[i].start) == Some(r[i].hit)
    ensures forall i, j | 0 <= i < j < |r| :: r[i].hit.end <= r[j].start
    decreases |s| - from
  {
    if from == |s| then []
    else
      match pattern(s, from)
      case None => Matches(pattern, s, from + 1)
      case Some(m) =>
        var rest := Matches(pattern, s, m.end);
        var r := [Found(from, m)] + rest;
        assert r[0] == Found(from, m);
        assert forall i | 0 <= i < |rest| :: r[i + 1] == rest[i];
        assert forall i, j | 0 <= i < j < |r| :: r[i].hit.end <= r[j].start by {
          forall i, j | 0 <= i < j < |r| ensures r[i].hit.end <= r[j].start {
            assert r[j] == rest[j - 1];
            if i > 0 {
              assert r[i] == rest[i - 1];
            }
          }
        }
        r
  }

  // Where the pattern fails, the search moves on by one position.
  lemma MatchesMiss(pattern: Pattern, s: string, from: nat)
    requires from < |s| && Advances(pattern, s) && pattern(s, from).None?
    ensures Matches(pattern, s, from) == Matches(pattern, s, from + 1)
  {
  }

  // Where the pattern matches, the match is listed and the search resumes at its end.
  lemma MatchesHit(pattern: Pattern, s: string, from: nat, m: Match)
    requires from < |s| && Advances(pattern, s) && pattern(s, from) == Some(m)
    ensures Matches(pattern, s, from) == [Found(from, m)] + Matches(pattern, s, m.end)
  {
  }

  // Every position from `from` on where the pattern matches is the start of a
  // listed match or lies inside one: the listed matches are the leftmost ones.
  lemma {:induction false} MatchesCover(pattern: Pattern, s: string, from: nat, k: nat)
    requires from <= k < |s| && Advances(pattern, s) && pattern(s, k).Some?
    ensures exists i | 0 <= i < |Matches(pattern, s, from)| ::
      Matches(pattern, s, from)[i].start <= k < Matches(pattern, s, from)[i].hit.end
    decreases |s| - from
  {
    var r := Matches(pattern, s, from);
    match pattern(s, from)
    case None =>
      MatchesCover(pattern, s, from + 1, k);
    case Some(m) =>
      if k < m.end {
        assert r[0].start <= k < r[0].hit.end;
      } else {
        var rest := Matches(pattern, s, m.end);
        MatchesCover(pattern, s, m.end, k);
        var i :| 0 <= i < |rest| && rest[i].start <= k < rest[i].hit.end;
        assert r[i + 1] == rest[i];
      }
  }

  // ---------------------------------------------------------------------------
  // `init(parsing:)`
  // ---------------------------------------------------------------------------

  // The matches of `statusMatch` in the whole text.
  function StatusMatches(s: string): (r: seq<Found>)
    ensures forall i | 0 <= i < |r| ::
      r[i].start < r[i].hit.end <= |s| && StatusMatch(s, r[i].start) == Some(r[i].hit)
    ensures forall i, j | 0 <= i < j < |r| :: r[i].hit.end <= r[j].start
  {
    StatusMatchAdvances(s);
    Matches(StatusMatch, s, 0)
  }

  // `StatusSequence(parsing:)`: the record of each match, in the order the
  // matches occur. Extraction never fails; text without a match gives no
  // records.
  function Parse(s: string): (r: seq<Status>)
    ensures forall i | 0 <= i < |r| :: Extracted(r[i])
  {
    var found := StatusMatches(s);
    seq(|found|, i requires 0 <= i < |found| => found[i].hit.status)
  }
}
