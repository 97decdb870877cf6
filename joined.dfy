/**
  Swift's `joined(separator:)` on an array of strings, which every section of
  the renderer ends with, and its inverse for a one-character separator: the
  split that reads the pieces back.
 */
module Joined {

  /** Total length of the pieces. */
  function TotalLength(parts: seq<string>): nat {
    if |parts| == 0 then 0 else |parts[0]| + TotalLength(parts[1..])
  }

  /**
    `parts.joined(separator: sep)`: the pieces in order with `sep` between
    neighbours; the empty string for no pieces, the piece itself for one.
   */
  function Join(parts: seq<string>, sep: string): (r: string)
    ensures |parts| == 0 ==> r == ""
    ensures |parts| > 0 ==> |r| == TotalLength(parts) + (|parts| - 1) * |sep|
    ensures |parts| > 0 ==> r[..|parts[0]|] == parts[0]
  {
    if |parts| == 0 then ""
    else if |parts| == 1 then parts[0]
    else parts[0] + sep + Join(parts[1..], sep)
  }

  /** Joining two non-empty lists is joining their joins. */
  lemma {:induction false} JoinConcat(a: seq<string>, b: seq<string>, sep: string)
    requires |a| > 0 && |b| > 0
    ensures Join(a + b, sep) == Join(a, sep) + sep + Join(b, sep)
    decreases |a|
  {
    if |a| == 1 {
      assert (a + b)[1..] == b;
    } else {
      assert (a + b)[1..] == a[1..] + b;
      JoinConcat(a[1..], b, sep);
    }
  }

  /** One more piece at the end lands after one more separator. */
  lemma JoinAppend(parts: seq<string>, p: string, sep: string)
    requires |parts| > 0
    ensures Join(parts + [p], sep) == Join(parts, sep) + sep + p
  {
    JoinConcat(parts, [p], sep);
  }

  /** Where the piece `parts[k]` starts in the joined text. */
  function Offset(parts: seq<string>, k: nat, sep: string): nat
    requires k < |parts|
  {
    if k == 0 then 0 else |parts[0]| + |sep| + Offset(parts[1..], k - 1, sep)
  }

  /** Every piece appears, whole, at its offset in the joined text. */
  lemma {:induction false} JoinAt(parts: seq<string>, k: nat, sep: string)
    requires k < |parts|
    ensures Offset(parts, k, sep) + |parts[k]| <= |Join(parts, sep)|
    ensures Join(parts, sep)[Offset(parts, k, sep)..Offset(parts, k, sep) + |parts[k]|] == parts[k]
    decreases k
  {
    if k > 0 {
      var rest := Join(parts[1..], sep);
      JoinAt(parts[1..], k - 1, sep);
      var o := Offset(parts[1..], k - 1, sep);
      var d := |parts[0]| + |sep|;
      assert Join(parts, sep) == parts[0] + sep + rest;
      assert (parts[0] + sep + rest)[d + o..d + o + |parts[k]|] == rest[o..o + |parts[k]|];
    }
  }

  /** A piece with a piece on each side: the pieces, the piece, the pieces, separated. */
  lemma JoinAround(a: seq<string>, x: string, b: seq<string>, sep: string)
    requires |a| > 0 && |b| > 0
    ensures Join(a + [x] + b, sep) == Join(a, sep) + sep + x + sep + Join(b, sep)
  {
    JoinConcat(a + [x], b, sep);
    JoinAppend(a, x, sep);
  }

  /** `part` occurs in `s` starting at position `i`. */
  predicate OccursAt(s: string, part: string, i: nat) {
    i + |part| <= |s| && s[i..i + |part|] == part
  }

  /** `part` occurs in `s`. */
  ghost predicate Contains(s: string, part: string) {
    exists i: nat :: OccursAt(s, part, i)
  }

  /** A text contains what a part of it contains. */
  lemma ContainsTrans(s: string, part: string, inner: string)
    requires Contains(s, part) && Contains(part, inner)
    ensures Contains(s, inner)
  {
    var i: nat :| OccursAt(s, part, i);
    var j: nat :| OccursAt(part, inner, j);
    forall k | 0 <= k < |inner| ensures s[i + j + k] == inner[k] {
      assert inner[k] == part[j + k] == s[i + j + k];
    }
    assert s[i + j..i + j + |inner|] == inner;
    assert OccursAt(s, inner, i + j);
  }

  /** Every text contains itself. */
  lemma ContainsSelf(s: string)
    ensures Contains(s, s)
  {
    assert OccursAt(s, s, 0);
  }

  /** The middle of a concatenation is contained in it. */
  lemma ContainsMiddle(x: string, y: string, z: string)
    ensures Contains(x + y + z, y)
  {
    assert (x + y + z)[|x|..|x| + |y|] == y;
    assert OccursAt(x + y + z, y, |x|);
  }

  /** Every piece occurs in the joined text. */
  lemma JoinContains(parts: seq<string>, k: nat, sep: string)
    requires k < |parts|
    ensures Contains(Join(parts, sep), parts[k])
  {
    JoinAt(parts, k, sep);
    assert OccursAt(Join(parts, sep), parts[k], Offset(parts, k, sep));
  }

  /** The join of the front pieces, and the join of the back pieces, occur in the joined text. */
  lemma JoinContainsJoin(a: seq<string>, b: seq<string>, sep: string)
    requires |a| > 0 && |b| > 0
    ensures Contains(Join(a + b, sep), Join(a, sep)) && Contains(Join(a + b, sep), Join(b, sep))
  {
    JoinConcat(a, b, sep);
    ContainsMiddle("", Join(a, sep), sep + Join(b, sep));
    ContainsMiddle(Join(a, sep) + sep, Join(b, sep), "");
    assert "" + Join(a, sep) + (sep + Join(b, sep)) == Join(a + b, sep);
    assert Join(a, sep) + sep + Join(b, sep) + "" == Join(a + b, sep);
  }

  /** The join of the middle pieces occurs in the joined text. */
  lemma JoinMiddleContains(a: seq<string>, m: seq<string>, b: seq<string>, sep: string)
    requires |a| > 0 && |m| > 0 && |b| > 0
    ensures Contains(Join(a + m + b, sep), Join(m, sep))
  {
    JoinContainsJoin(a + m, b, sep);
    JoinContainsJoin(a, m, sep);
    ContainsTrans(Join(a + m + b, sep), Join(a + m, sep), Join(m, sep));
  }

  /** Around a middle piece: the middle piece and the joins on either side occur in the joined text. */
  lemma JoinAroundContains(a: seq<string>, x: string, b: seq<string>, sep: string)
    requires |a| > 0 && |b| > 0
    ensures Contains(Join(a + [x] + b, sep), Join(a, sep))
    ensures Contains(Join(a + [x] + b, sep), x)
    ensures Contains(Join(a + [x] + b, sep), Join(b, sep))
  {
    JoinAround(a, x, b, sep);
    var ja, jb := Join(a, sep), Join(b, sep);
    var whole := ja + sep + x + sep + jb;
    assert whole[..|ja|] == ja;
    assert OccursAt(whole, ja, 0);
    assert whole[|ja| + |sep|..|ja| + |sep| + |x|] == x;
    assert OccursAt(whole, x, |ja| + |sep|);
    assert whole[|ja| + |sep| + |x| + |sep|..] == jb;
    assert OccursAt(whole, jb, |ja| + |sep| + |x| + |sep|);
  }

  /** The string `t` does not contain the character `c`. */
  predicate Free(t: string, c: char) {
    forall k | 0 <= k < |t| :: t[k] != c
  }

  /**
    `s.split(separator: c, omittingEmptySubsequences: false)`: the pieces
    between occurrences of `c`; always at least one piece.
   */
  function Split(s: string, c: char): (r: seq<string>)
    ensures |r| > 0
    ensures forall i | 0 <= i < |r| :: Free(r[i], c)
  {
    if |s| == 0 then [""]
    else
      var rest := Split(s[1..], c);
      if s[0] == c then [""] + rest
      else
        assert Free([s[0]] + rest[0], c) by {
          forall k | 0 <= k < |[s[0]] + rest[0]| ensures ([s[0]] + rest[0])[k] != c {
            if k > 0 {
              assert ([s[0]] + rest[0])[k] == rest[0][k - 1];
            }
          }
        }
        [[s[0]] + rest[0]] + rest[1..]
  }

  /** A piece free of `c` followed by `c` is split off as the first piece. */
  lemma {:induction false} SplitCons(t: string, c: char, u: string)
    requires Free(t, c)
    ensures Split(t + [c] + u, c) == [t] + Split(u, c)
    decreases |t|
  {
    if |t| == 0 {
      assert (t + [c] + u)[1..] == u;
    } else {
      assert (t + [c] + u)[1..] == t[1..] + [c] + u;
      SplitCons(t[1..], c, u);
      assert [t[0]] + t[1..] == t;
    }
  }

  /** Text free of `c` is a single piece. */
  lemma {:induction false} SplitFree(t: string, c: char)
    requires Free(t, c)
    ensures Split(t, c) == [t]
    decreases |t|
  {
    if |t| > 0 {
      SplitFree(t[1..], c);
      assert [t[0]] + t[1..] == t;
    }
  }

  /** Splitting undoes joining when no piece contains the separator. */
  lemma {:induction false} SplitJoin(parts: seq<string>, c: char)
    requires |parts| > 0 && forall i | 0 <= i < |parts| :: Free(parts[i], c)
    ensures Split(Join(parts, [c]), c) == parts
    decreases |parts|
  {
    if |parts| == 1 {
      SplitFree(parts[0], c);
    } else {
      SplitJoin(parts[1..], c);
      SplitCons(parts[0], c, Join(parts[1..], [c]));
    }
  }

  /** Joining undoes splitting: no text is lost or added. */
  lemma {:induction false} JoinSplit(s: string, c: char)
    ensures Join(Split(s, c), [c]) == s
    decreases |s|
  {
    if |s| > 0 {
      var rest := Split(s[1..], c);
      JoinSplit(s[1..], c);
      if s[0] == c {
        assert ([""] + rest)[1..] == rest;
      } else if |rest| > 1 {
        assert ([[s[0]] + rest[0]] + rest[1..])[1..] == rest[1..];
      }
    }
  }
}
