/**
 * The feature matrix: an ordered sequence of columns, an index from column
 * name to position, and the case labels. It chooses the best splitter among
 * candidate columns, appends shuffled contrast columns, and is built from the
 * tokenised rows of an annotated feature matrix.
 */
module Matrix {
  import opened Wrappers
  import opened Features
  import opened Names
  import opened Parsing

  /**
   * The impurity decrease each candidate column's best split achieves, in
   * candidate order; `bestSplit` stands for the column's own search.
   */
  function Decreases<S>(data: seq<Feature>, candidates: seq<int>,
                        bestSplit: (Feature, seq<int>, real) -> (S, real),
                        cases: seq<int>, parentImp: real): (ds: seq<real>)
    requires forall k :: 0 <= k < |candidates| ==> 0 <= candidates[k] < |data|
  {
    seq(|candidates|, k requires 0 <= k < |candidates| => bestSplit(data[candidates[k]], cases, parentImp).1)
  }

  /**
   * Among the first `n` entries of `ds`, entry `w` is a maximum and no earlier
   * entry reaches it: the first maximum.
   */
  predicate IsFirstMax(ds: seq<real>, n: int, w: int) {
    && 0 <= w < n <= |ds|
    && (forall k :: 0 <= k < n ==> ds[k] <= ds[w])
    && (forall k :: 0 <= k < w ==> ds[k] < ds[w])
  }

  /** The first maximum of a prefix is unique, so the winning candidate is determined. */
  lemma FirstMaxUnique(ds: seq<real>, n: int, w1: int, w2: int)
    requires IsFirstMax(ds, n, w1) && IsFirstMax(ds, n, w2)
    ensures w1 == w2
  {
    assert ds[w1] <= ds[w2] && ds[w2] <= ds[w1];
  }

  /** The shape argument for one copy of each of the `n` original columns, in order. */
  lemma CopiesKeepShape(d: seq<Feature>, data0: seq<Feature>)
    requires |d| == 2 * |data0| && d[..|data0|] == data0
    requires forall k :: 0 <= k < |data0| ==> IsShuffledCopy(d[|data0| + k], data0[k])
    ensures AllWellFormed(data0) && Rectangular(data0) ==> AllWellFormed(d) && Rectangular(d)
  {
    var n := |data0|;
    var origin := seq(n, k => k);
    forall k | 0 <= k < |origin|
      ensures 0 <= origin[k] < n && IsShuffledCopy(d[n + k], d[origin[k]])
    {
      assert d[origin[k]] == d[..n][k] == data0[k];
    }
    ContrastsKeepShape(d, n, origin);
  }

  /**
   * An index that agrees with the first `n` columns, extended by registering
   * the rest in order, agrees with all of them.
   */
  lemma ContrastsKeepIndex(d: seq<Feature>, n: int, m: map<string, int>)
    requires 0 <= n <= |d|
    ensures m == NameIndex(d[..n]) ==> Register(m, n, d[n..]) == NameIndex(d)
  {
    assert d[..n] + d[n..] == d;
    RegisterConcat(map[], 0, d[..n], d[n..]);
  }

  /**
   * Columns `n` onward of `d` being shuffled copies of columns before `n`
   * (copy `k` drawn from column `origin[k]`) keeps every column well-formed and
   * all of the same length.
   */
  lemma ContrastsKeepShape(d: seq<Feature>, n: int, origin: seq<int>)
    requires 0 <= n <= |d| && |origin| == |d| - n
    requires forall k :: 0 <= k < |origin| ==> 0 <= origin[k] < n
    requires forall k :: 0 <= k < |origin| ==> IsShuffledCopy(d[n + k], d[origin[k]])
    ensures AllWellFormed(d[..n]) && Rectangular(d[..n]) ==> AllWellFormed(d) && Rectangular(d)
  {
    if AllWellFormed(d[..n]) && Rectangular(d[..n]) {
      forall i | 0 <= i < |d|
        ensures WellFormed(d[i]) && Length(d[i]) == Length(d[DrawnFrom(d, n, origin, i)])
      {
        if i >= n {
          assert d[..n][origin[i - n]] == d[origin[i - n]];
          ShuffledCopyLength(d[i], d[origin[i - n]]);
        } else {
          assert d[..n][i] == d[i];
        }
      }
      forall i, j | 0 <= i < |d| && 0 <= j < |d| ensures Length(d[i]) == Length(d[j]) {
        var ri, rj := DrawnFrom(d, n, origin, i), DrawnFrom(d, n, origin, j);
        assert d[..n][ri] == d[ri] && d[..n][rj] == d[rj];
      }
    }
  }

  /** The column before `n` that column `i` of `d` was drawn from (itself when it is one of them). */
  function DrawnFrom(d: seq<Feature>, n: int, origin: seq<int>, i: int): (r: int)
    requires 0 <= n <= |d| && |origin| == |d| - n && 0 <= i < |d|
    requires forall k :: 0 <= k < |origin| ==> 0 <= origin[k] < n
    ensures 0 <= r < n
  {
    if i < n then i else origin[i - n]
  }

  class FeatureMatrix {
    var Data: seq<Feature>
    var Map: map<string, int>
    var CaseLabels: seq<string>

    constructor (data: seq<Feature>, lookup: map<string, int>, caseLabels: seq<string>)
      ensures Data == data && Map == lookup && CaseLabels == caseLabels
    {
      Data := data;
      Map := lookup;
      CaseLabels := caseLabels;
    }

    /** The name index agrees with the columns: each name maps to the last column carrying it. */
    ghost predicate InSync()
      reads this
    {
      Map == NameIndex(Data)
    }

    /**
     * Picks the splitter among the `candidates` columns. The parent impurity
     * is computed once; every candidate's best split is asked for, and a
     * candidate replaces the best so far when its decrease is strictly above
     * both `MinImp` and the best so far, so the first candidate reaching the
     * maximum wins. Only a winner above `MinImp` is decoded.
     *
     * The call in the original passes the target, the cases, the parent
     * impurity and the scratch buffers and takes two results, while the
     * column interface declares a leaf size and a random-split flag as well and
     * a third "constant" result. Here `bestSplit` takes the column, the cases
     * and the parent impurity (the target, leaf size and search mode are bound
     * inside it) and returns the encoded split and its decrease; only the
     * decrease drives the selection.
     */
    method BestSplitter<S, P>(impurity: seq<int> -> real,
                              bestSplit: (Feature, seq<int>, real) -> (S, real),
                              decodeSplit: (Feature, S) -> P,
                              cases: seq<int>, candidates: seq<int>)
      returns (s: Option<P>, impurityDecrease: real)
      requires forall k :: 0 <= k < |candidates| ==> 0 <= candidates[k] < |Data|
      ensures impurityDecrease >= MinImp
      ensures s.Some? <==>
        exists k :: 0 <= k < |candidates| && Decreases(Data, candidates, bestSplit, cases, impurity(cases))[k] > MinImp
      ensures s.None? ==> impurityDecrease == MinImp
      ensures s.Some? ==>
        exists w :: IsFirstMax(Decreases(Data, candidates, bestSplit, cases, impurity(cases)), |candidates|, w)
          && impurityDecrease == Decreases(Data, candidates, bestSplit, cases, impurity(cases))[w]
          && s == Some(decodeSplit(Data[candidates[w]], bestSplit(Data[candidates[w]], cases, impurity(cases)).0))
    {
      impurityDecrease := MinImp;
      var bestF: Option<Feature> := None;
      var best: Option<S> := None;
      ghost var w := 0;
      var parentImp := impurity(cases);
      ghost var ds := Decreases(Data, candidates, bestSplit, cases, parentImp);

      var k := 0;
      while k < |candidates|
        invariant 0 <= k <= |candidates|
        invariant impurityDecrease >= MinImp
        invariant bestF.None? <==> forall j :: 0 <= j < k ==> ds[j] <= MinImp
        invariant bestF.None? ==> impurityDecrease == MinImp
        invariant bestF.Some? ==>
          && IsFirstMax(ds, k, w)
          && impurityDecrease == ds[w] > MinImp
          && bestF == Some(Data[candidates[w]])
          && best == Some(bestSplit(Data[candidates[w]], cases, parentImp).0)
      {
        var f := Data[candidates[k]];
        var (split, inerImp) := bestSplit(f, cases, parentImp);
        if inerImp > MinImp && inerImp > impurityDecrease {
          bestF := Some(f);
          impurityDecrease := inerImp;
          best := Some(split);
          w := k;
        }
        k := k + 1;
      }
      if impurityDecrease > MinImp {
        s := Some(decodeSplit(bestF.value, best.value));
      } else {
        s := None;
      }
    }

    /**
     * Appends `n` contrast columns; the `k`-th is a shuffled copy of the
     * original column `picks[k]` (the random draws, with replacement, among the
     * columns present before the first append). Each is registered in the
     * name index under the position it is appended at.
     */
    method AddContrasts(n: int, picks: seq<int>)
      requires |picks| == if n > 0 then n else 0
      requires forall k :: 0 <= k < |picks| ==> 0 <= picks[k] < |Data|
      modifies this
      ensures |Data| == |old(Data)| + |picks|
      ensures Data[..|old(Data)|] == old(Data)
      ensures forall k :: 0 <= k < |picks| ==> IsShuffledCopy(Data[|old(Data)| + k], old(Data)[picks[k]])
      ensures Map == Register(old(Map), |old(Data)|, Data[|old(Data)|..])
      ensures old(InSync()) ==> InSync()
      ensures old(AllWellFormed(Data) && Rectangular(Data)) ==> AllWellFormed(Data) && Rectangular(Data)
      ensures CaseLabels == old(CaseLabels)
    {
      var nrealfeatures := |Data|;
      ghost var data0, map0 := Data, Map;
      var i := 0;
      while i < n
        invariant 0 <= i <= |picks|
        invariant |Data| == nrealfeatures + i
        invariant Data[..nrealfeatures] == data0
        invariant forall k :: 0 <= k < i ==> IsShuffledCopy(Data[nrealfeatures + k], data0[picks[k]])
        invariant Map == Register(map0, nrealfeatures, Data[nrealfeatures..])
        invariant CaseLabels == old(CaseLabels)
      {
        var orig := Data[picks[i]];
        var fake := ShuffledCopy(orig);
        Map := Map[fake.name := |Data|];
        ghost var added := Data[nrealfeatures..];
        Data := Data + [fake];
        assert Data[nrealfeatures..][..i] == added;
        i := i + 1;
      }
      ContrastsKeepIndex(Data, nrealfeatures, map0);
      ContrastsKeepShape(Data, nrealfeatures, picks);
    }

    /**
     * Appends one shuffled copy of every column present: column `n + i` is a
     * shuffled copy of column `i`, registered under position `n + i`.
     */
    method ContrastAll()
      modifies this
      ensures |Data| == 2 * |old(Data)|
      ensures Data[..|old(Data)|] == old(Data)
      ensures forall i :: 0 <= i < |old(Data)| ==> IsShuffledCopy(Data[|old(Data)| + i], old(Data)[i])
      ensures Map == Register(old(Map), |old(Data)|, Data[|old(Data)|..])
      ensures old(InSync()) ==> InSync()
      ensures old(AllWellFormed(Data) && Rectangular(Data)) ==> AllWellFormed(Data) && Rectangular(Data)
      ensures CaseLabels == old(CaseLabels)
    {
      var nrealfeatures := |Data|;
      ghost var data0, map0 := Data, Map;
      var i := 0;
      while i < nrealfeatures
        invariant 0 <= i <= nrealfeatures
        invariant |Data| == nrealfeatures + i
        invariant Data[..nrealfeatures] == data0
        invariant forall k :: 0 <= k < i ==> IsShuffledCopy(Data[nrealfeatures + k], data0[k])
        invariant Map == Register(map0, nrealfeatures, Data[nrealfeatures..])
        invariant CaseLabels == old(CaseLabels)
      {
        var fake := ShuffledCopy(Data[i]);
        Map := Map[fake.name := |Data|];
        ghost var added := Data[nrealfeatures..];
        Data := Data + [fake];
        assert Data[nrealfeatures..][..i] == added;
        i := i + 1;
      }
      ContrastsKeepIndex(Data, nrealfeatures, map0);
      CopiesKeepShape(Data, data0);
    }
  }

  /**
   * Builds a feature matrix from the header row and the data rows read after
   * it. The header's first field is dropped to give the case labels; row `j`
   * becomes column `j`, and its name is registered under position `j`.
   */
  method ParseAFM(headers: seq<string>, records: seq<seq<string>>,
                  parseFloat: string -> Option<real>, toLower: string -> string)
    returns (fm: FeatureMatrix)
    requires |headers| >= 1
    requires forall j :: 0 <= j < |records| ==> |records[j]| >= 1 && |records[j][0]| >= 2
    ensures fresh(fm)
    ensures fm.CaseLabels == headers[1..]
    ensures |fm.Data| == |records|
    ensures forall j :: 0 <= j < |records| ==> IsParsed(fm.Data[j], records[j], parseFloat, toLower)
    ensures forall j :: 0 <= j < |records| && fm.Data[j].CatFeature? ==> fresh(fm.Data[j].cats)
    ensures forall i, j :: 0 <= i < j < |records| && fm.Data[i].CatFeature? && fm.Data[j].CatFeature? ==>
      fm.Data[i].cats != fm.Data[j].cats
    ensures fm.InSync()
    ensures forall j :: 0 <= j < |records| ==> records[j][0] in fm.Map && j <= fm.Map[records[j][0]]
    ensures forall j :: IsLastNamed(fm.Data, j) ==> fm.Map[records[j][0]] == j
    ensures (forall j :: 0 <= j < |records| ==> |records[j]| == |headers|) ==>
      forall j :: 0 <= j < |records| ==> Length(fm.Data[j]) == |fm.CaseLabels|
  {
    var data: seq<Feature> := [];
    var lookup: map<string, int> := map[];
    var caseLabels := headers[1..];

    var count := 0;
    while count < |records|
      invariant 0 <= count <= |records|
      invariant |data| == count
      invariant forall j :: 0 <= j < count ==> IsParsed(data[j], records[j], parseFloat, toLower)
      invariant forall j :: 0 <= j < count && data[j].CatFeature? ==> fresh(data[j].cats)
      invariant forall i, j :: 0 <= i < j < count && data[i].CatFeature? && data[j].CatFeature? ==>
        data[i].cats != data[j].cats
      invariant lookup == NameIndex(data)
    {
      var record := records[count];
      var f := ParseFeature(record, parseFloat, toLower);
      assert (data + [f])[..count] == data;
      data := data + [f];
      lookup := lookup[record[0] := count];
      count := count + 1;
    }
    RegisterPositions(map[], 0, data);
    fm := new FeatureMatrix(data, lookup, caseLabels);
  }
}
