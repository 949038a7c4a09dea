/**
 * The predictor columns ("features") a feature matrix holds: the two dense
 * column kinds, the string/code encoder of a categorical column, the
 * minimum-improvement floor and the shuffled copy used for contrasts.
 */
module Features {

  /** Minimum impurity decrease a split must exceed to be kept. */
  const MinImp: real := 0.0

  /**
   * Encoder of one categorical column: `Map` sends a category string to its
   * code and `Back` sends a code back to its string.
   */
  class CatMap {
    var Map: map<string, int>
    var Back: seq<string>

    /** Codes are dense, start at 0, and `Back` inverts `Map`. */
    ghost predicate Valid()
      reads this
    {
      && (forall i :: 0 <= i < |Back| ==> Back[i] in Map && Map[Back[i]] == i)
      && (forall v :: v in Map ==> 0 <= Map[v] < |Back| && Back[Map[v]] == v)
    }

    constructor ()
      ensures Valid() && Map == map[] && Back == []
    {
      Map := map[];
      Back := [];
    }

    /**
     * Code of `value`; a value never seen before gets the next free code,
     * so codes are handed out in first-seen order.
     */
    method CatToNum(value: string) returns (code: int)
      requires Valid()
      modifies this
      ensures Valid()
      ensures 0 <= code < |Back| && Back[code] == value
      ensures value in old(Back) ==> Back == old(Back)
      ensures value !in old(Back) ==> Back == old(Back) + [value]
      ensures Map == old(Map)[value := code]
    {
      if value in Map {
        code := Map[value];
      } else {
        code := |Back|;
        Back := Back + [value];
        Map := Map[value := code];
      }
    }

    /** String of a code handed out by `CatToNum`. */
    function NumToCat(i: int): (value: string)
      requires Valid() && 0 <= i < |Back|
      reads this
      ensures value in Map && Map[value] == i
    {
      Back[i]
    }
  }

  /**
   * A dense column: numeric values or categorical codes, a parallel missing
   * mask, and the column's name. A categorical column refers to its encoder.
   */
  datatype Feature =
    | NumFeature(name: string, numData: seq<real>, missing: seq<bool>)
    | CatFeature(name: string, cats: CatMap, catData: seq<int>, missing: seq<bool>)

  /** One case of a column: its stored value and its missing flag. */
  datatype Cell = NumCell(x: real, isMissing: bool) | CatCell(code: int, isMissing: bool)

  /** Number of cases the column holds. */
  function Length(f: Feature): (n: nat) {
    match f
    case NumFeature(_, xs, _) => |xs|
    case CatFeature(_, _, cs, _) => |cs|
  }

  /** The value sequence and the missing mask are parallel. */
  predicate WellFormed(f: Feature) {
    Length(f) == |f.missing|
  }

  /** The column read case by case. */
  function Cells(f: Feature): (cells: seq<Cell>)
    requires WellFormed(f)
    ensures |cells| == Length(f)
    ensures forall i :: 0 <= i < |cells| ==> cells[i].isMissing == f.missing[i]
  {
    match f
    case NumFeature(_, xs, m) => seq(|xs|, i requires 0 <= i < |xs| => NumCell(xs[i], m[i]))
    case CatFeature(_, _, cs, m) => seq(|cs|, i requires 0 <= i < |cs| => CatCell(cs[i], m[i]))
  }

  /**
   * `fake` is a shuffled copy of `orig`: a column of the same kind (a
   * categorical one decoded by the same encoder) holding the same cases, each
   * value travelling together with its missing flag, in some order. Its name
   * is left open.
   */
  predicate IsShuffledCopy(fake: Feature, orig: Feature) {
    && fake.NumFeature? == orig.NumFeature?
    && (fake.CatFeature? && orig.CatFeature? ==> fake.cats == orig.cats)
    && WellFormed(fake) == WellFormed(orig)
    && (WellFormed(orig) ==> multiset(Cells(fake)) == multiset(Cells(orig)))
  }

  /**
   * A shuffled copy of `f`. Which permutation is drawn, and the name the copy
   * is given, are left open: any shuffled copy is a possible outcome.
   */
  method ShuffledCopy(f: Feature) returns (fake: Feature)
    ensures IsShuffledCopy(fake, f)
    ensures WellFormed(f) ==> Length(fake) == Length(f)
  {
    assert IsShuffledCopy(f, f);
    fake :| IsShuffledCopy(fake, f);
    if WellFormed(f) {
      ShuffledCopyLength(fake, f);
    }
  }

  /** A shuffled copy of a well-formed column is well-formed and has as many cases. */
  lemma ShuffledCopyLength(fake: Feature, orig: Feature)
    requires IsShuffledCopy(fake, orig) && WellFormed(orig)
    ensures WellFormed(fake) && Length(fake) == Length(orig)
  {
    assert WellFormed(fake);
    assert |multiset(Cells(fake))| == |multiset(Cells(orig))|;
  }

  /** Every column of `data` is well-formed. */
  predicate AllWellFormed(data: seq<Feature>) {
    forall i :: 0 <= i < |data| ==> WellFormed(data[i])
  }

  /** Every column of `data` has the same number of cases. */
  predicate Rectangular(data: seq<Feature>) {
    forall i, j :: 0 <= i < |data| && 0 <= j < |data| ==> Length(data[i]) == Length(data[j])
  }
}
