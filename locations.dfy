/** Where the active node type occurs in the input, and how Babel's source
    locations become Monaco decoration ranges (pages/index.tsx). */
module Locations {

  /** A Babel source position: 1-based line, 0-based column. */
  datatype Pos = Pos(line: int, column: int)

  /** A Babel `node.loc`. */
  datatype Loc = Loc(start: Pos, end: Pos)

  /** A Monaco range: 1-based lines and 1-based columns. */
  datatype Range = Range(startLineNumber: int, startColumn: int, endLineNumber: int, endColumn: int)

  /** `new monaco.Range(loc.start.line, loc.start.column + 1, loc.end.line,
      loc.end.column + 1)`. */
  function ToRange(loc: Loc): (r: Range)
    ensures r.startLineNumber == loc.start.line && r.endLineNumber == loc.end.line
    ensures r.startColumn == loc.start.column + 1 && r.endColumn == loc.end.column + 1
  {
    Range(loc.start.line, loc.start.column + 1, loc.end.line, loc.end.column + 1)
  }

  /** The Babel location a range was made from. */
  function FromRange(r: Range): Loc {
    Loc(Pos(r.startLineNumber, r.startColumn - 1), Pos(r.endLineNumber, r.endColumn - 1))
  }

  /** `locs.map(...)`: one range per location, in the same order. */
  function ToRanges(locs: seq<Loc>): (rs: seq<Range>)
    ensures |rs| == |locs|
    ensures forall i :: 0 <= i < |locs| ==> rs[i] == ToRange(locs[i])
  {
    seq(|locs|, i requires 0 <= i < |locs| => ToRange(locs[i]))
  }

  /** The conversion loses nothing: each location is recovered from its range. */
  lemma FromRangeToRange(loc: Loc)
    ensures FromRange(ToRange(loc)) == loc
  {
  }

  /** The ranges carry exactly the locations, in order. */
  lemma {:induction false} ToRangesInjective(a: seq<Loc>, b: seq<Loc>)
    requires ToRanges(a) == ToRanges(b)
    ensures a == b
  {
    assert |a| == |b|;
    forall i | 0 <= i < |a|
      ensures a[i] == b[i]
    {
      FromRangeToRange(a[i]);
      FromRangeToRange(b[i]);
      assert ToRanges(a)[i] == ToRanges(b)[i];
    }
  }

  /** The ranges of concatenated lists are the concatenated ranges. */
  lemma ToRangesAppend(a: seq<Loc>, b: seq<Loc>)
    ensures ToRanges(a + b) == ToRanges(a) + ToRanges(b)
  {
  }

  /** What the traversal does, step by step, with the visitor
      `{ [activeNode]: path => locs.push(path.node.loc) }`: it enters a node of
      the active type, or throws (an unknown node type in the visitor, or an
      error while walking). */
  datatype TraverseEvent = Enter(loc: Loc) | Fail(message: string)

  /** The locations pushed before the traversal ends or first throws. */
  function Collected(events: seq<TraverseEvent>): seq<Loc>
    decreases |events|
  {
    if events == [] then []
    else match events[0]
      case Enter(loc) => [loc] + Collected(events[1..])
      case Fail(_) => []
  }

  /** `getLocations(tree, activeNode)`, given the traversal's events: the
      throw is swallowed, and what was pushed until then is the result. */
  method GetLocations(events: seq<TraverseEvent>) returns (locs: seq<Loc>)
    ensures locs == Collected(events)
  {
    locs := [];
    var i := 0;
    while i < |events|
      invariant 0 <= i <= |events|
      invariant Collected(events) == locs + Collected(events[i..])
      decreases |events| - i
    {
      assert events[i..][1..] == events[i + 1..];
      if events[i].Fail? {
        return;
      }
      locs := locs + [events[i].loc];
      i := i + 1;
    }
  }

  /** The locations of a traversal that does not throw: every entered node,
      in visiting order. */
  function Entered(events: seq<TraverseEvent>): seq<Loc>
    requires forall i :: 0 <= i < |events| ==> events[i].Enter?
  {
    seq(|events|, i requires 0 <= i < |events| => events[i].loc)
  }

  /** A traversal that throws after entering some nodes yields exactly those
      nodes' locations, in push order; whatever would have come after the
      throw is lost. */
  lemma {:induction false} CollectedUntilFailure(done: seq<TraverseEvent>, message: string, rest: seq<TraverseEvent>)
    requires forall i :: 0 <= i < |done| ==> done[i].Enter?
    ensures Collected(done + [Fail(message)] + rest) == Entered(done)
    ensures Collected(done) == Entered(done)
    decreases |done|
  {
    if done != [] {
      assert (done + [Fail(message)] + rest)[1..] == done[1..] + [Fail(message)] + rest;
      CollectedUntilFailure(done[1..], message, rest);
      assert Entered(done) == [done[0].loc] + Entered(done[1..]);
    } else {
      assert done + [Fail(message)] + rest == [Fail(message)] + rest;
    }
  }

  /** The result is a prefix of the entered locations. */
  lemma {:induction false} CollectedIsPrefix(events: seq<TraverseEvent>)
    ensures |Collected(events)| <= |events|
    ensures forall i :: 0 <= i < |Collected(events)| ==> events[i] == Enter(Collected(events)[i])
    decreases |events|
  {
    if events != [] && events[0].Enter? {
      CollectedIsPrefix(events[1..]);
      var c := Collected(events);
      assert c == [events[0].loc] + Collected(events[1..]);
      forall i | 0 <= i < |c|
        ensures events[i] == Enter(c[i])
      {
        if i > 0 {
          assert events[i] == events[1..][i - 1];
        }
      }
    }
  }
}
