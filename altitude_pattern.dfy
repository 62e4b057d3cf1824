/**
  The coordinate pattern used to strip altitudes from KML coordinates, written out
  as a hand-coded recognizer and rewriter. One coordinate tuple is

      C  =  (\d+(?:\.\d*)?,\d+(?:\.\d*)?),0

  an unsigned decimal longitude and latitude followed by the altitude `,0`. A text
  has only zero altitudes when the whole of it matches `^(?:C +)*C *$`: tuples
  separated by one or more spaces, with optional trailing spaces. Stripping
  replaces every match of `C` by its first group, dropping the `,0`.

  The scanners work on a position in the text rather than on suffixes. `\d` is an
  ASCII digit here. Python's `$` also matches just before a final line feed; this
  model anchors at the very end of the text only.
*/
module AltitudePattern {
  import opened Wrappers

  predicate IsDigit(c: char) {
    '0' <= c <= '9'
  }

  /** End of the run of digits that starts at `i`. */
  function DigitsEnd(s: string, i: nat): (n: nat)
    requires i <= |s|
    ensures i <= n <= |s|
    decreases |s| - i
  {
    if i == |s| || !IsDigit(s[i]) then i else DigitsEnd(s, i + 1)
  }

  /** End of the run of spaces that starts at `i`. */
  function SpacesEnd(s: string, i: nat): (n: nat)
    requires i <= |s|
    ensures i <= n <= |s|
    decreases |s| - i
  {
    if i == |s| || s[i] != ' ' then i else SpacesEnd(s, i + 1)
  }

  /** End of the match of `\d+(?:\.\d*)?` at `i`; `i` itself when there is none. */
  function NumberEnd(s: string, i: nat): (n: nat)
    requires i <= |s|
    ensures i <= n <= |s|
  {
    var d := DigitsEnd(s, i);
    if d == i then i
    else if d < |s| && s[d] == '.' then DigitsEnd(s, d + 1)
    else d
  }

  /**
    End of the match of the tuple pattern `C` at `i`. A number can only end
    where a comma follows, so the greedy scan finds the only match.
  */
  function TupleEnd(s: string, i: nat): (r: Option<nat>)
    requires i <= |s|
    ensures r.Some? ==> i + 5 <= r.value <= |s|
  {
    var a := NumberEnd(s, i);
    if a == i || a == |s| || s[a] != ',' then None
    else
      var b := NumberEnd(s, a + 1);
      if b == a + 1 || b + 2 > |s| || s[b] != ',' || s[b + 1] != '0' then None
      else Some(b + 2)
  }

  /** `(?:C +)*C *$` matches the text from `i` on. */
  function MatchFrom(s: string, i: nat): bool
    requires i <= |s|
    decreases |s| - i
  {
    match TupleEnd(s, i)
    case None => false
    case Some(e) =>
      var k := SpacesEnd(s, e);
      if k == |s| then true
      else if k == e then false
      else MatchFrom(s, k)
  }

  /** `re.search('^(?:C +)*C *$', s)` succeeds. */
  function FullMatch(s: string): bool {
    MatchFrom(s, 0)
  }

  /**
    `re.sub(C, '\\1', ...)` from `i` on: scanning from the left, each match of `C`
    is replaced by its first group (the match without the final `,0`); every
    other character is copied.
  */
  function SubstituteFrom(s: string, i: nat): string
    requires i <= |s|
    decreases |s| - i
  {
    if i == |s| then []
    else match TupleEnd(s, i)
      case Some(e) => s[i..e - 2] + SubstituteFrom(s, e)
      case None => [s[i]] + SubstituteFrom(s, i + 1)
  }

  function Substitute(s: string): string {
    SubstituteFrom(s, 0)
  }

  // The language of the pattern, stated independently of the scanner.

  /** An unsigned decimal: a digit, then digits and at most one point. */
  predicate IsNumber(x: string) {
    && |x| > 0
    && IsDigit(x[0])
    && (forall k :: 0 <= k < |x| ==> IsDigit(x[k]) || x[k] == '.')
    && (forall j, k :: 0 <= j < k < |x| && x[j] == '.' ==> x[k] != '.')
  }

  /** A coordinate tuple with altitude 0 and the number of spaces that follow it. */
  datatype CoordinateTuple = CoordinateTuple(lon: string, lat: string, gap: nat)

  function Spaces(n: nat): (r: string)
    ensures |r| == n && forall k :: 0 <= k < n ==> r[k] == ' '
  {
    if n == 0 then [] else [' '] + Spaces(n - 1)
  }

  /** The coordinate text of a tuple list, altitudes included. */
  function Render(ts: seq<CoordinateTuple>): string {
    if ts == [] then []
    else ts[0].lon + "," + ts[0].lat + ",0" + Spaces(ts[0].gap) + Render(ts[1..])
  }

  /** The same text with every altitude dropped. */
  function RenderStripped(ts: seq<CoordinateTuple>): string {
    if ts == [] then []
    else ts[0].lon + "," + ts[0].lat + Spaces(ts[0].gap) + RenderStripped(ts[1..])
  }

  /** At least one tuple, numbers well formed, tuples separated by one or more spaces. */
  predicate WellFormed(ts: seq<CoordinateTuple>) {
    && |ts| > 0
    && forall i :: 0 <= i < |ts| ==>
         IsNumber(ts[i].lon) && IsNumber(ts[i].lat) && (i < |ts| - 1 ==> ts[i].gap > 0)
  }

  // Scanner lemmas.

  lemma {:induction false} DigitsEndRun(s: string, i: nat)
    requires i <= |s|
    ensures forall k :: i <= k < DigitsEnd(s, i) ==> IsDigit(s[k])
    ensures DigitsEnd(s, i) < |s| ==> !IsDigit(s[DigitsEnd(s, i)])
    decreases |s| - i
  {
    if i < |s| && IsDigit(s[i]) {
      DigitsEndRun(s, i + 1);
    }
  }

  lemma {:induction false} SpacesEndRun(s: string, i: nat)
    requires i <= |s|
    ensures forall k :: i <= k < SpacesEnd(s, i) ==> s[k] == ' '
    ensures SpacesEnd(s, i) < |s| ==> s[SpacesEnd(s, i)] != ' '
    decreases |s| - i
  {
    if i < |s| && s[i] == ' ' {
      SpacesEndRun(s, i + 1);
    }
  }

  lemma {:induction false} DigitsEndExact(s: string, i: nat, n: nat)
    requires i <= n <= |s|
    requires forall k :: i <= k < n ==> IsDigit(s[k])
    requires n == |s| || !IsDigit(s[n])
    ensures DigitsEnd(s, i) == n
    decreases n - i
  {
    if i < n {
      DigitsEndExact(s, i + 1, n);
    }
  }

  lemma {:induction false} SpacesEndExact(s: string, i: nat, n: nat)
    requires i <= n <= |s|
    requires forall k :: i <= k < n ==> s[k] == ' '
    requires n == |s| || s[n] != ' '
    ensures SpacesEnd(s, i) == n
    decreases n - i
  {
    if i < n {
      SpacesEndExact(s, i + 1, n);
    }
  }

  /** A well-formed number followed by a separator is scanned exactly. */
  lemma NumberScan(s: string, i: nat, j: nat)
    requires i <= j < |s|
    requires IsNumber(s[i..j])
    requires !IsDigit(s[j]) && s[j] != '.'
    ensures NumberEnd(s, i) == j
  {
    var x := s[i..j];
    if exists d :: 0 <= d < |x| && x[d] == '.' {
      var d :| 0 <= d < |x| && x[d] == '.';
      forall k | i <= k < i + d ensures IsDigit(s[k]) {
        assert x[k - i] != '.';
      }
      DigitsEndExact(s, i, i + d);
      forall k | i + d + 1 <= k < j ensures IsDigit(s[k]) {
        assert x[k - i] != '.';
      }
      DigitsEndExact(s, i + d + 1, j);
    } else {
      forall k | i <= k < j ensures IsDigit(s[k]) {
        assert x[k - i] != '.';
      }
      DigitsEndExact(s, i, j);
    }
  }

  /** Whatever the scanner accepts as a number is one. */
  lemma NumberEndSound(s: string, i: nat)
    requires i <= |s| && NumberEnd(s, i) > i
    ensures IsNumber(s[i..NumberEnd(s, i)])
  {
    var d := DigitsEnd(s, i);
    var n := NumberEnd(s, i);
    var x := s[i..n];
    DigitsEndRun(s, i);
    if d < |s| && s[d] == '.' {
      DigitsEndRun(s, d + 1);
      forall k | 0 <= k < |x| ensures IsDigit(x[k]) || x[k] == '.' {
        assert x[k] == s[i + k];
      }
      forall j, k | 0 <= j < k < |x| && x[j] == '.' ensures x[k] != '.' {
        assert x[j] == s[i + j];
        assert x[k] == s[i + k];
      }
    } else {
      forall k | 0 <= k < |x| ensures IsDigit(x[k]) {
        assert x[k] == s[i + k];
      }
    }
  }

  /** The pieces of a rendered tuple, located in the text. */
  lemma HeadPieces(s: string, i: nat, x: string, y: string, a: nat, b: nat)
    requires a == i + |x| && b == a + 1 + |y| && b + 2 <= |s|
    requires s[i..b + 2] == x + "," + y + ",0"
    ensures s[i..a] == x && s[a] == ',' && s[a + 1..b] == y && s[b] == ',' && s[b + 1] == '0'
  {
    var w := s[i..b + 2];
    assert w == x + "," + y + ",0";
    forall k | 0 <= k < |x| ensures s[i + k] == x[k] {
      assert s[i + k] == w[k];
    }
    forall k | 0 <= k < |y| ensures s[a + 1 + k] == y[k] {
      assert s[a + 1 + k] == w[|x| + 1 + k];
    }
    assert s[a] == w[|x|] && s[b] == w[b - i] && s[b + 1] == w[b + 1 - i];
    assert s[i..a] == x;
    assert s[a + 1..b] == y;
  }

  /** Two numbers, a comma between them, and `,0` make a tuple. */
  lemma TupleAtPieces(s: string, i: nat, a: nat, b: nat)
    requires i < a && a + 1 < b && b + 2 <= |s|
    requires IsNumber(s[i..a]) && s[a] == ','
    requires IsNumber(s[a + 1..b]) && s[b] == ',' && s[b + 1] == '0'
    ensures TupleEnd(s, i) == Some(b + 2)
  {
    NumberScan(s, i, a);
    NumberScan(s, a + 1, b);
  }

  /** A rendered tuple is matched at its first character. */
  lemma TupleAt(s: string, i: nat, t: CoordinateTuple, e: nat)
    requires IsNumber(t.lon) && IsNumber(t.lat)
    requires e == i + |t.lon| + |t.lat| + 3 <= |s|
    requires s[i..e] == t.lon + "," + t.lat + ",0"
    ensures TupleEnd(s, i) == Some(e)
  {
    var a := i + |t.lon|;
    var b := a + 1 + |t.lat|;
    HeadPieces(s, i, t.lon, t.lat, a, b);
    TupleAtPieces(s, i, a, b);
  }

  /** What the scanner takes for a tuple is two numbers, a comma between them, and `,0`. */
  lemma TupleFound(s: string, i: nat, e: nat, a: nat)
    requires i <= |s| && TupleEnd(s, i) == Some(e) && a == NumberEnd(s, i)
    ensures i < a < e - 2
    ensures IsNumber(s[i..a]) && IsNumber(s[a + 1..e - 2])
    ensures s[i..e] == s[i..a] + "," + s[a + 1..e - 2] + ",0"
  {
    NumberEndSound(s, i);
    NumberEndSound(s, a + 1);
    assert s[i..e] == s[i..a] + [s[a]] + s[a + 1..e - 2] + [s[e - 2], s[e - 1]];
  }

  /** The run of spaces the scanner skips. */
  lemma SpacesFound(s: string, e: nat, k: nat)
    requires e <= |s| && k == SpacesEnd(s, e)
    ensures s[e..k] == Spaces(k - e) && (k < |s| ==> s[k] != ' ')
  {
    SpacesEndRun(s, e);
  }

  // One step of the recognizer and of the rewriter.

  lemma MatchStep(s: string, i: nat, e: nat, k: nat)
    requires i <= |s| && TupleEnd(s, i) == Some(e) && k == SpacesEnd(s, e)
    ensures MatchFrom(s, i) == (k == |s| || (k != e && MatchFrom(s, k)))
  {
  }

  lemma SubstituteTuple(s: string, i: nat, e: nat)
    requires i <= |s| && TupleEnd(s, i) == Some(e)
    ensures SubstituteFrom(s, i) == s[i..e - 2] + SubstituteFrom(s, e)
  {
  }

  lemma SubstituteCopy(s: string, i: nat)
    requires i < |s| && TupleEnd(s, i).None?
    ensures SubstituteFrom(s, i) == [s[i]] + SubstituteFrom(s, i + 1)
  {
  }

  lemma NoTupleAtSpace(s: string, i: nat)
    requires i < |s| && s[i] == ' '
    ensures TupleEnd(s, i).None?
  {
  }

  // Sequence algebra, kept apart from the scanners so that it is done on plain values.

  lemma Chain(x: string, y: string, z: string, p: string, q: string)
    requires x == p + y && y == q + z
    ensures x == p + q + z
  {
  }

  lemma SliceCons(s: string, i: nat, n: nat)
    requires i < n <= |s|
    ensures s[i..n] == [s[i]] + s[i + 1..n]
  {
  }

  /** A space is copied by the rewriter. */
  lemma SubstituteSpace(s: string, i: nat)
    requires i < |s| && s[i] == ' '
    ensures SubstituteFrom(s, i) == [s[i]] + SubstituteFrom(s, i + 1)
  {
    NoTupleAtSpace(s, i);
    SubstituteCopy(s, i);
  }

  /** Spaces are copied by the rewriter. */
  lemma {:induction false} SubstituteSpaces(s: string, i: nat, n: nat)
    requires i <= n <= |s|
    requires forall k :: i <= k < n ==> s[k] == ' '
    ensures SubstituteFrom(s, i) == s[i..n] + SubstituteFrom(s, n)
    decreases n - i
  {
    if i < n {
      SubstituteSpaces(s, i + 1, n);
      SubstituteSpace(s, i);
      SliceCons(s, i, n);
      Chain(SubstituteFrom(s, i), SubstituteFrom(s, i + 1), SubstituteFrom(s, n), [s[i]], s[i + 1..n]);
    }
  }

  /** A rendered tuple followed by spaces, split at the end of the tuple. */
  lemma UnitPieces(s: string, i: nat, x: string, y: string, e: nat, n: nat)
    requires e == i + |x| + |y| + 3 <= n <= |s|
    requires s[i..n] == x + "," + y + ",0" + Spaces(n - e)
    ensures s[i..e] == x + "," + y + ",0"
    ensures s[i..e - 2] == x + "," + y
    ensures s[e..n] == Spaces(n - e)
  {
    var g := n - e;
    var w := s[i..n];
    var head := x + "," + y + ",0";
    assert w == head + Spaces(g);
    forall k | 0 <= k < |head| ensures s[i + k] == head[k] {
      assert s[i + k] == w[k];
    }
    forall k | e <= k < n ensures s[k] == ' ' {
      assert s[k] == w[k - i];
    }
    assert s[i..e] == head;
    assert s[e..n] == Spaces(g);
    assert s[i..e - 2] == x + "," + y by {
      assert s[i..e - 2] == head[..|head| - 2];
    }
  }

  /** The spaces after a rendered tuple, read by the scanner. */
  lemma GapScan(s: string, e: nat, n: nat)
    requires e <= n <= |s| && s[e..n] == Spaces(n - e)
    requires n == |s| || s[n] != ' '
    ensures SpacesEnd(s, e) == n
  {
    forall k | e <= k < n ensures s[k] == ' ' {
      assert s[k] == s[e..n][k - e];
    }
    SpacesEndExact(s, e, n);
  }

  /** One rendered tuple and the spaces after it, read by the recognizer. */
  lemma MatchUnit(s: string, i: nat, t: CoordinateTuple, n: nat)
    requires IsNumber(t.lon) && IsNumber(t.lat)
    requires n == i + |t.lon| + |t.lat| + 3 + t.gap <= |s|
    requires s[i..n] == t.lon + "," + t.lat + ",0" + Spaces(t.gap)
    requires n == |s| || s[n] != ' '
    ensures MatchFrom(s, i) == (n == |s| || (t.gap > 0 && MatchFrom(s, n)))
  {
    var e := i + |t.lon| + |t.lat| + 3;
    UnitPieces(s, i, t.lon, t.lat, e, n);
    TupleAt(s, i, t, e);
    GapScan(s, e, n);
    MatchStep(s, i, e, n);
  }

  /** A rendered tuple, read by the rewriter. */
  lemma SubstituteHead(s: string, i: nat, t: CoordinateTuple, e: nat)
    requires IsNumber(t.lon) && IsNumber(t.lat)
    requires e == i + |t.lon| + |t.lat| + 3 <= |s|
    requires s[i..e] == t.lon + "," + t.lat + ",0"
    ensures SubstituteFrom(s, i) == s[i..e - 2] + SubstituteFrom(s, e)
  {
    TupleAt(s, i, t, e);
    SubstituteTuple(s, i, e);
  }

  /** The spaces after it, read by the rewriter. */
  lemma SubstituteGap(s: string, e: nat, n: nat)
    requires e <= n <= |s| && s[e..n] == Spaces(n - e)
    ensures SubstituteFrom(s, e) == s[e..n] + SubstituteFrom(s, n)
  {
    forall k | e <= k < n ensures s[k] == ' ' {
      assert s[k] == s[e..n][k - e];
    }
    SubstituteSpaces(s, e, n);
  }

  /** One rendered tuple and the spaces after it, read by the rewriter. */
  lemma SubstituteUnit(s: string, i: nat, t: CoordinateTuple, n: nat)
    requires IsNumber(t.lon) && IsNumber(t.lat)
    requires n == i + |t.lon| + |t.lat| + 3 + t.gap <= |s|
    requires s[i..n] == t.lon + "," + t.lat + ",0" + Spaces(t.gap)
    ensures SubstituteFrom(s, i) == t.lon + "," + t.lat + Spaces(t.gap) + SubstituteFrom(s, n)
  {
    var e := i + |t.lon| + |t.lat| + 3;
    var x, y, z := SubstituteFrom(s, i), SubstituteFrom(s, e), SubstituteFrom(s, n);
    UnitPieces(s, i, t.lon, t.lat, e, n);
    SubstituteHead(s, i, t, e);
    assert x == s[i..e - 2] + y;
    SubstituteGap(s, e, n);
    assert y == s[e..n] + z;
    Chain(x, y, z, s[i..e - 2], s[e..n]);
  }

  // The recognizer accepts exactly the texts of well-formed tuple lists, and the
  // rewriter turns such a text into the same list without altitudes.

  lemma SplitAt(s: string, i: nat, u: string, r: string, n: nat)
    requires i <= |s| && s[i..] == u + r && n == i + |u|
    ensures n <= |s| && s[i..n] == u && s[n..] == r
    ensures n == |s| <==> r == []
    ensures n < |s| ==> s[n] == r[0]
  {
    assert s[i..n] == s[i..][..|u|];
    assert s[n..] == s[i..][|u|..];
  }

  /** A rendered list starts with the first digit of its first longitude. */
  lemma RenderStart(ts: seq<CoordinateTuple>)
    requires WellFormed(ts)
    ensures |Render(ts)| > 0 && Render(ts)[0] == ts[0].lon[0] && IsDigit(Render(ts)[0])
  {
    var t := ts[0];
    assert Render(ts) == t.lon + ("," + t.lat + ",0" + Spaces(t.gap) + Render(ts[1..]));
  }

  /** The first rendered tuple of a list, read at its position. */
  lemma RenderedHead(s: string, i: nat, ts: seq<CoordinateTuple>, t: CoordinateTuple, n: nat)
    requires WellFormed(ts) && t == ts[0] && n == i + |t.lon| + |t.lat| + 3 + t.gap
    requires i <= |s| && s[i..] == Render(ts)
    ensures n <= |s|
    ensures s[i..n] == t.lon + "," + t.lat + ",0" + Spaces(t.gap)
    ensures s[n..] == Render(ts[1..])
    ensures n == |s| <==> |ts| == 1
    ensures n == |s| || s[n] != ' '
  {
    var unit := t.lon + "," + t.lat + ",0" + Spaces(t.gap);
    var rest := Render(ts[1..]);
    assert s[i..] == unit + rest;
    SplitAt(s, i, unit, rest, n);
    if |ts| > 1 {
      RenderStart(ts[1..]);
    } else {
      assert ts[1..] == [];
    }
  }

  lemma TailWellFormed(ts: seq<CoordinateTuple>)
    requires WellFormed(ts) && |ts| > 1
    ensures WellFormed(ts[1..])
  {
    forall j | 0 <= j < |ts[1..]|
      ensures IsNumber(ts[1..][j].lon) && IsNumber(ts[1..][j].lat)
        && (j < |ts[1..]| - 1 ==> ts[1..][j].gap > 0)
    {
      assert ts[1..][j] == ts[j + 1];
    }
  }

  lemma {:induction false} RenderedIsMatched(s: string, i: nat, ts: seq<CoordinateTuple>)
    requires WellFormed(ts)
    requires i <= |s| && s[i..] == Render(ts)
    ensures MatchFrom(s, i)
    decreases |ts|
  {
    var t := ts[0];
    var n := i + |t.lon| + |t.lat| + 3 + t.gap;
    RenderedHead(s, i, ts, t, n);
    MatchUnit(s, i, t, n);
    if n < |s| {
      TailWellFormed(ts);
      RenderedIsMatched(s, n, ts[1..]);
    }
  }

  lemma {:induction false} RenderedIsStripped(s: string, i: nat, ts: seq<CoordinateTuple>)
    requires WellFormed(ts)
    requires i <= |s| && s[i..] == Render(ts)
    ensures SubstituteFrom(s, i) == RenderStripped(ts)
    decreases |ts|
  {
    var t := ts[0];
    var n := i + |t.lon| + |t.lat| + 3 + t.gap;
    RenderedHead(s, i, ts, t, n);
    SubstituteUnit(s, i, t, n);
    assert RenderStripped(ts) == t.lon + "," + t.lat + Spaces(t.gap) + RenderStripped(ts[1..]);
    if n < |s| {
      TailWellFormed(ts);
      RenderedIsStripped(s, n, ts[1..]);
    } else {
      assert SubstituteFrom(s, n) == [] == RenderStripped(ts[1..]);
    }
  }

  lemma JoinSlices(s: string, i: nat, e: nat, k: nat)
    requires i <= e <= k <= |s|
    ensures s[i..k] == s[i..e] + s[e..k]
  {
  }

  lemma JoinAt(s: string, i: nat, k: nat)
    requires i <= k <= |s|
    ensures s[i..] == s[i..k] + s[k..]
  {
  }

  lemma RenderCons(t: CoordinateTuple, more: seq<CoordinateTuple>)
    ensures Render([t] + more) == t.lon + "," + t.lat + ",0" + Spaces(t.gap) + Render(more)
  {
    assert ([t] + more)[1..] == more;
  }

  lemma ConsWellFormed(t: CoordinateTuple, more: seq<CoordinateTuple>)
    requires IsNumber(t.lon) && IsNumber(t.lat)
    requires more != [] ==> t.gap > 0 && WellFormed(more)
    ensures WellFormed([t] + more)
  {
    var ts := [t] + more;
    forall j | 0 <= j < |ts|
      ensures IsNumber(ts[j].lon) && IsNumber(ts[j].lat) && (j < |ts| - 1 ==> ts[j].gap > 0)
    {
      if j > 0 {
        assert ts[j] == more[j - 1];
      }
    }
  }

  /** The first tuple the recognizer reads at `i`, and where its trailing spaces end. */
  lemma HeadFound(s: string, i: nat) returns (t: CoordinateTuple, k: nat)
    requires i <= |s| && MatchFrom(s, i)
    ensures k == i + |t.lon| + |t.lat| + 3 + t.gap <= |s|
    ensures IsNumber(t.lon) && IsNumber(t.lat)
    ensures s[i..k] == t.lon + "," + t.lat + ",0" + Spaces(t.gap)
    ensures k < |s| ==> t.gap > 0 && MatchFrom(s, k)
  {
    var e := TupleEnd(s, i).value;
    var a := NumberEnd(s, i);
    k := SpacesEnd(s, e);
    t := CoordinateTuple(s[i..a], s[a + 1..e - 2], k - e);
    TupleFound(s, i, e, a);
    SpacesFound(s, e, k);
    JoinSlices(s, i, e, k);
    if k < |s| {
      MatchStep(s, i, e, k);
    }
  }

  /** The tuple list the recognizer read, recovered from an accepted text. */
  lemma {:induction false} Recognized(s: string, i: nat) returns (ts: seq<CoordinateTuple>)
    requires i <= |s| && MatchFrom(s, i)
    ensures WellFormed(ts) && Render(ts) == s[i..]
    decreases |s| - i
  {
    var t, k := HeadFound(s, i);
    var more: seq<CoordinateTuple> := [];
    if k < |s| {
      more := Recognized(s, k);
    }
    ts := [t] + more;
    ConsWellFormed(t, more);
    RenderCons(t, more);
    JoinAt(s, i, k);
    assert Render(more) == s[k..];
  }

  /** The whole-text pattern accepts exactly the texts of well-formed zero-altitude tuple lists. */
  lemma FullMatchIsZeroAltitudeList(s: string)
    ensures FullMatch(s) <==> exists ts :: WellFormed(ts) && Render(ts) == s
  {
    assert s[0..] == s;
    if FullMatch(s) {
      var ts := Recognized(s, 0);
    }
    if exists ts :: WellFormed(ts) && Render(ts) == s {
      var ts :| WellFormed(ts) && Render(ts) == s;
      RenderedIsMatched(s, 0, ts);
    }
  }

  /** On an accepted text, substitution drops every `,0` and keeps everything else. */
  lemma SubstituteStripsEveryAltitude(s: string)
    requires FullMatch(s)
    ensures exists ts :: WellFormed(ts) && Render(ts) == s && Substitute(s) == RenderStripped(ts)
  {
    assert s[0..] == s;
    var ts := Recognized(s, 0);
    RenderedIsStripped(s, 0, ts);
  }
}
