/** String searching, splitting and joining, as JavaScript's
    String.prototype.indexOf, split (with a non-empty separator) and
    Array.prototype.join behave on strings. */
module Text {
  import opened Results

  /** `pat` occurs in `s` starting at index `k`. */
  predicate OccursAt(s: string, pat: string, k: nat) {
    k + |pat| <= |s| && s[k..k + |pat|] == pat
  }

  /** `pat` occurs somewhere in `s`. */
  ghost predicate Contains(s: string, pat: string) {
    exists k: nat :: OccursAt(s, pat, k)
  }

  /** The first index at or after `from` where `pat` occurs in `s`. */
  function IndexFrom(s: string, pat: string, from: nat): (r: Option<nat>)
    ensures r.Some? ==> from <= r.value && r.value + |pat| <= |s|
    decreases |s| - from
  {
    if from + |pat| > |s| then None
    else if s[from..from + |pat|] == pat then Some(from)
    else IndexFrom(s, pat, from + 1)
  }

  /** The search finds the first occurrence at or after `from`, and none
      exactly when there is none. */
  lemma {:induction false} IndexFromSpec(s: string, pat: string, from: nat)
    ensures var r := IndexFrom(s, pat, from);
      (r.Some? ==> from <= r.value && OccursAt(s, pat, r.value)) &&
      (r.Some? ==> forall k: nat :: from <= k < r.value ==> !OccursAt(s, pat, k)) &&
      (r.None? ==> forall k: nat :: from <= k ==> !OccursAt(s, pat, k))
    decreases |s| - from
  {
    if from + |pat| <= |s| && s[from..from + |pat|] != pat {
      IndexFromSpec(s, pat, from + 1);
    }
  }

  /** `s.split(sep)`: the pieces between successive non-overlapping
      occurrences of `sep`, scanning from the left. */
  function Split(s: string, sep: string): (pieces: seq<string>)
    requires sep != []
    ensures |pieces| >= 1
    decreases |s|
  {
    match IndexFrom(s, sep, 0)
    case None => [s]
    case Some(i) => [s[..i]] + Split(s[i + |sep|..], sep)
  }

  /** `pieces.join(sep)`. */
  function Join(pieces: seq<string>, sep: string): string
    decreases |pieces|
  {
    if |pieces| == 0 then ""
    else if |pieces| == 1 then pieces[0]
    else pieces[0] + sep + Join(pieces[1..], sep)
  }

  lemma OccursInPrefix(s: string, pat: string, i: nat, k: nat)
    requires i <= |s| && OccursAt(s[..i], pat, k)
    ensures OccursAt(s, pat, k)
  {
    assert s[..i][k..k + |pat|] == s[k..k + |pat|];
  }

  lemma OccursInSuffix(s: string, pat: string, j: nat, k: nat)
    requires j <= |s| && OccursAt(s[j..], pat, k)
    ensures OccursAt(s, pat, j + k)
  {
    assert s[j..][k..k + |pat|] == s[j + k..j + k + |pat|];
  }

  /** Splitting and joining again gives back the original string. */
  lemma {:induction false} JoinSplit(s: string, sep: string)
    requires sep != []
    ensures Join(Split(s, sep), sep) == s
    decreases |s|
  {
    IndexFromSpec(s, sep, 0);
    match IndexFrom(s, sep, 0)
    case None =>
    case Some(i) =>
      var rest := s[i + |sep|..];
      var pieces := Split(s, sep);
      assert pieces == [s[..i]] + Split(rest, sep);
      assert pieces[1..] == Split(rest, sep);
      JoinSplit(rest, sep);
      assert Join(pieces, sep) == s[..i] + sep + rest;
      assert s == s[..i] + sep + rest;
  }

  /** No piece of a split contains the separator. */
  lemma {:induction false} SplitPiecesFree(s: string, sep: string)
    requires sep != []
    ensures forall p :: p in Split(s, sep) ==> !Contains(p, sep)
    decreases |s|
  {
    IndexFromSpec(s, sep, 0);
    match IndexFrom(s, sep, 0)
    case None =>
    case Some(i) =>
      var rest := s[i + |sep|..];
      SplitPiecesFree(rest, sep);
      if Contains(s[..i], sep) {
        var k: nat :| OccursAt(s[..i], sep, k);
        OccursInPrefix(s, sep, i, k);
      }
  }

  /** The split has one piece exactly when the separator does not occur. */
  lemma SplitSingleIff(s: string, sep: string)
    requires sep != []
    ensures |Split(s, sep)| == 1 <==> !Contains(s, sep)
  {
    IndexFromSpec(s, sep, 0);
    match IndexFrom(s, sep, 0)
    case None =>
    case Some(i) =>
  }

  /** When `sep` occurs, piece 1 of the split is the text between the end
      of its first occurrence and the start of the next one, or the end of
      the string when there is no next one. */
  lemma SecondPiece(s: string, sep: string, i: nat)
    requires sep != [] && IndexFrom(s, sep, 0) == Some(i)
    ensures |Split(s, sep)| >= 2
    ensures var rest := s[i + |sep|..];
      Split(s, sep)[1] == match IndexFrom(rest, sep, 0)
                          case None => rest
                          case Some(j) => rest[..j]
  {
    var rest := s[i + |sep|..];
    SplitStep(s, sep, i);
    FirstPiece(rest, sep);
  }

  lemma SplitStep(s: string, sep: string, i: nat)
    requires sep != [] && IndexFrom(s, sep, 0) == Some(i)
    ensures Split(s, sep) == [s[..i]] + Split(s[i + |sep|..], sep)
  {
  }

  /** Piece 0 of a split ends where the first occurrence starts. */
  lemma FirstPiece(s: string, sep: string)
    requires sep != []
    ensures Split(s, sep)[0] == match IndexFrom(s, sep, 0)
                               case None => s
                               case Some(j) => s[..j]
  {
  }

  /** Joining a concatenation of two non-empty lists puts one separator
      between the two joins. */
  lemma {:induction false} JoinAppend(x: seq<string>, y: seq<string>, sep: string)
    requires |x| >= 1 && |y| >= 1
    ensures Join(x + y, sep) == Join(x, sep) + sep + Join(y, sep)
    decreases |x|
  {
    if |x| == 1 {
      assert (x + y)[1..] == y;
    } else {
      assert (x + y)[1..] == x[1..] + y;
      JoinAppend(x[1..], y, sep);
    }
  }

  /** A character that is in no piece and not in the separator is not in
      the join. */
  lemma {:induction false} CharFreeJoin(pieces: seq<string>, sep: string, c: char)
    requires forall i :: 0 <= i < |pieces| ==> c !in pieces[i]
    requires c !in sep
    ensures c !in Join(pieces, sep)
    decreases |pieces|
  {
    if |pieces| > 1 {
      CharFreeJoin(pieces[1..], sep, c);
    }
  }

  lemma OccursChar(s: string, pat: string, k: nat, m: nat)
    requires m < |pat|
    ensures OccursAt(s, pat, k) ==> k + m < |s| && s[k + m] == pat[m]
  {
    if OccursAt(s, pat, k) {
      assert s[k..k + |pat|][m] == s[k + m];
    }
  }

  /** If `sep[m]` occurs nowhere else in `sep` and not in `a`, the first
      occurrence of `sep` in `a + sep + b` is right after `a`. */
  lemma FirstOccurrence(a: string, sep: string, b: string, m: nat)
    requires m < |sep| && sep[m] !in a
    requires forall j :: 0 <= j < |sep| && j != m ==> sep[j] != sep[m]
    ensures IndexFrom(a + sep + b, sep, 0) == Some(|a|)
  {
    var s := a + sep + b;
    IndexFromSpec(s, sep, 0);
    assert s[|a|..|a| + |sep|] == sep;
    assert OccursAt(s, sep, |a|);
    forall k: nat | k < |a|
      ensures !OccursAt(s, sep, k)
    {
      OccursChar(s, sep, k, m);
      if k + m < |a| {
        assert s[k + m] == a[k + m];
      } else if k + m < |s| {
        assert s[k + m] == sep[k + m - |a|];
      }
    }
  }

  /** Without the character `sep[m]`, a string holds no occurrence of `sep`. */
  lemma NoOccurrence(b: string, sep: string, m: nat)
    requires m < |sep| && sep[m] !in b
    ensures IndexFrom(b, sep, 0) == None
  {
    IndexFromSpec(b, sep, 0);
    forall k: nat | true
      ensures !OccursAt(b, sep, k)
    {
      OccursChar(b, sep, k, m);
    }
  }

  /** Joining lines on a one-character separator they do not contain, then
      splitting on it, gives the lines back. */
  lemma {:induction false} SplitJoinChar(pieces: seq<string>, c: char)
    requires |pieces| >= 1
    requires forall i :: 0 <= i < |pieces| ==> c !in pieces[i]
    ensures Split(Join(pieces, [c]), [c]) == pieces
    decreases |pieces|
  {
    if |pieces| == 1 {
      NoOccurrence(pieces[0], [c], 0);
    } else {
      var rest := Join(pieces[1..], [c]);
      FirstOccurrence(pieces[0], [c], rest, 0);
      var s := pieces[0] + [c] + rest;
      assert s[|pieces[0]| + 1..] == rest;
      assert s[..|pieces[0]|] == pieces[0];
      SplitJoinChar(pieces[1..], c);
    }
  }
}
