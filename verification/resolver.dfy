/** Snapping a predicted chart intent onto the uploaded table: column-name normalization,
    nearest-candidate selection by edit distance, and `matchOptions`. */
module Resolver {
  import opened Wrappers
  import opened Strings
  import opened EditDistance

  /** The plot types the component offers, in its order. */
  const PlotTypes: seq<string> := ["scatter", "bar", "line", "doughnut"]

  /** The character class `[()\[\]{}<> ]` removed from column names before matching. */
  const Stripped: set<char> := {'(', ')', '[', ']', '{', '}', '<', '>', ' '}

  /** A predicted intent as the prediction service returns it: free text in each field, or
      `undefined` for a field the service left out because no token was tagged with it. */
  datatype GraphObject = GraphObject(xAxisLabel: Option<string>, yAxisLabel: Option<string>, plotType: Option<string>)

  /** The TypeError `levenshtein` throws when it reads the length of an `undefined` target. */
  datatype MatchError = UndefinedTarget

  /** The intent after matching. An axis label is `None` where the component reads
      `columnNames[-1]`, which is `undefined`; that happens only when there are no columns. */
  datatype ResolvedIntent = ResolvedIntent(xAxisLabel: Option<string>, yAxisLabel: Option<string>, plotType: string)

  /* ---------------------------------------------------------------- normalization */

  /** A column name with the bracket and space characters removed, then lower-cased. */
  function Normalize(col: string): (r: string)
    ensures |r| <= |col|
    ensures forall k :: 0 <= k < |r| ==> r[k] !in Stripped && !IsAsciiUpper(r[k])
  {
    var kept := RemoveChars(col, Stripped);
    LowerKeepsUnstripped();
    AsciiLower(kept)
  }

  /** Lower-casing never produces one of the stripped characters. */
  lemma LowerKeepsUnstripped()
    ensures forall c :: c !in Stripped ==> AsciiLowerChar(c) !in Stripped
  {
    forall c | c !in Stripped
      ensures AsciiLowerChar(c) !in Stripped
    {
      var d := AsciiLowerChar(c);
      if IsAsciiUpper(c) {
        assert 'a' <= d <= 'z';
      }
    }
  }

  /** Normalizing a normalized name changes nothing. */
  lemma NormalizeIdempotent(col: string)
    ensures Normalize(Normalize(col)) == Normalize(col)
  {
    var n := Normalize(col);
    RemoveCharsNone(n, Stripped);
    assert AsciiLower(n) == n;
  }

  /** Normalization works character by character, so it distributes over concatenation. */
  lemma NormalizeAppend(x: string, y: string)
    ensures Normalize(x + y) == Normalize(x) + Normalize(y)
  {
    RemoveCharsAppend(x, y, Stripped);
    var rx, ry := RemoveChars(x, Stripped), RemoveChars(y, Stripped);
    AsciiLowerAppend(rx, ry);
  }

  /** A single character survives normalization, lower-cased, unless it is stripped. */
  lemma NormalizeChar(c: char)
    ensures Normalize([c]) == if c in Stripped then [] else [AsciiLowerChar(c)]
  {
  }

  /** The normalized column list: same length and order as the columns. */
  function NormalizeAll(cols: seq<string>): (r: seq<string>)
    ensures |r| == |cols|
    ensures forall i :: 0 <= i < |cols| ==> r[i] == Normalize(cols[i])
  {
    if |cols| == 0 then [] else [Normalize(cols[0])] + NormalizeAll(cols[1..])
  }

  /* ---------------------------------------------------------------- nearest candidate */

  /** `k` is the earliest index of a candidate at the least distance from `target`. */
  predicate IsFirstNearest(target: string, candidates: seq<string>, k: int)
  {
    && 0 <= k < |candidates|
    && (forall j :: 0 <= j < |candidates| ==> Distance(target, candidates[k]) <= Distance(target, candidates[j]))
    && (forall j :: 0 <= j < k ==> Distance(target, candidates[k]) < Distance(target, candidates[j]))
  }

  /** There is only one earliest nearest candidate. */
  lemma FirstNearestUnique(target: string, candidates: seq<string>, k: int, k': int)
    requires IsFirstNearest(target, candidates, k) && IsFirstNearest(target, candidates, k')
    ensures k == k'
  {
    assert Distance(target, candidates[k]) == Distance(target, candidates[k']);
  }

  /** The earliest nearest candidate is the first occurrence of its string, so `indexOf`
      on the matched string finds it again. */
  lemma FirstNearestIsFirstOccurrence(target: string, candidates: seq<string>, k: int)
    requires IsFirstNearest(target, candidates, k)
    ensures IndexOf(candidates, candidates[k]) == k
  {
    var p := IndexOf(candidates, candidates[k]);
    assert candidates[p] == candidates[k];
  }

  /** The component's `findMostSimilar`: scans the candidates in order and replaces the best
      one only on a strictly smaller distance, so the earliest of equally near candidates is
      returned; with no candidates it returns "". An `undefined` target makes the first
      distance computation throw, so it fails exactly when there is a candidate. */
  method FindMostSimilar(target: Option<string>, candidates: seq<string>) returns (r: Result<string, MatchError>)
    ensures |candidates| == 0 ==> r == Success("")
    ensures |candidates| > 0 && target.None? ==> r == Failure(UndefinedTarget)
    ensures |candidates| > 0 && target.Some? ==> r.Success?
    ensures |candidates| > 0 && target.Some? ==> exists k :: IsFirstNearest(target.value, candidates, k) && r.value == candidates[k]
  {
    if |candidates| > 0 && target.None? {
      // the first call to `levenshtein` reads `undefined.length`
      return Failure(UndefinedTarget);
    }
    var t := target.GetOr("");
    var minDistance: Option<nat> := None;   // None plays the role of Infinity
    var mostSimilar := "";
    ghost var best := -1;
    var i := 0;
    while i < |candidates|
      invariant 0 <= i <= |candidates|
      invariant i == 0 ==> minDistance == None && mostSimilar == ""
      invariant i > 0 ==> 0 <= best < i && mostSimilar == candidates[best]
                          && minDistance == Some(Distance(t, candidates[best]))
      invariant i > 0 ==> forall j :: 0 <= j < i ==> Distance(t, candidates[best]) <= Distance(t, candidates[j])
      invariant i > 0 ==> forall j :: 0 <= j < best ==> Distance(t, candidates[best]) < Distance(t, candidates[j])
    {
      var distance := Levenshtein(t, candidates[i]);
      if minDistance.None? || distance < minDistance.value {
        minDistance := Some(distance);
        mostSimilar := candidates[i];
        best := i;
      }
      i := i + 1;
    }
    if |candidates| > 0 {
      assert IsFirstNearest(t, candidates, best);
    }
    return Success(mostSimilar);
  }

  /* ---------------------------------------------------------------- matchOptions */

  /** The component's `matchOptions`. The column names are normalized; the predicted axis
      labels are compared with them as they are (they are not normalized); each match is
      mapped back to the column at the first index holding that normalized name. The plot
      type is matched against the fixed list. The call throws exactly when a field it has to
      measure is `undefined`: an axis label when there are columns, the plot type always.
      Otherwise, with at least one column both axis labels are real column names, namely the
      columns whose normalized names are nearest to the predicted labels (the earliest on a
      tie); with none they are `undefined`. The plot type is always one of the offered plot
      types. */
  method MatchOptions(options: GraphObject, columnNames: seq<string>) returns (r: Result<ResolvedIntent, MatchError>)
    ensures r.Failure? <==> (|columnNames| > 0 && (options.xAxisLabel.None? || options.yAxisLabel.None?))
                            || options.plotType.None?
    ensures r.Success? && |columnNames| == 0 ==> r.value.xAxisLabel == None && r.value.yAxisLabel == None
    ensures r.Success? && |columnNames| > 0 ==>
              exists k :: IsFirstNearest(options.xAxisLabel.value, NormalizeAll(columnNames), k)
                          && r.value.xAxisLabel == Some(columnNames[k])
    ensures r.Success? && |columnNames| > 0 ==>
              exists k :: IsFirstNearest(options.yAxisLabel.value, NormalizeAll(columnNames), k)
                          && r.value.yAxisLabel == Some(columnNames[k])
    ensures r.Success? ==> exists k :: IsFirstNearest(options.plotType.value, PlotTypes, k) && r.value.plotType == PlotTypes[k]
    ensures r.Success? ==> r.value.plotType in PlotTypes
  {
    var adjustedColNames := NormalizeAll(columnNames);
    var similarX :- FindMostSimilar(options.xAxisLabel, adjustedColNames);
    var similarY :- FindMostSimilar(options.yAxisLabel, adjustedColNames);
    var similarPlot :- FindMostSimilar(options.plotType, PlotTypes);
    var xPos := IndexOf(adjustedColNames, similarX);
    var yPos := IndexOf(adjustedColNames, similarY);
    var plotPos := IndexOf(PlotTypes, similarPlot);
    if |columnNames| > 0 {
      ghost var kx :| IsFirstNearest(options.xAxisLabel.value, adjustedColNames, kx) && similarX == adjustedColNames[kx];
      ghost var ky :| IsFirstNearest(options.yAxisLabel.value, adjustedColNames, ky) && similarY == adjustedColNames[ky];
      FirstNearestIsFirstOccurrence(options.xAxisLabel.value, adjustedColNames, kx);
      FirstNearestIsFirstOccurrence(options.yAxisLabel.value, adjustedColNames, ky);
    }
    ghost var kp :| IsFirstNearest(options.plotType.value, PlotTypes, kp) && similarPlot == PlotTypes[kp];
    FirstNearestIsFirstOccurrence(options.plotType.value, PlotTypes, kp);
    r := Success(ResolvedIntent(ElementAt(columnNames, xPos), ElementAt(columnNames, yPos), PlotTypes[plotPos]));
  }
}
