/**
 * Turning one tokenised row of an annotated feature matrix into a column.
 * The row's first field is the column name; its two-character prefix "N:"
 * makes the column numeric, anything else makes it categorical. Number
 * parsing and lower-casing are not modelled: they are passed in as functions.
 */
module Parsing {
  import opened Wrappers
  import opened Features

  /** The lower-cased spellings that mark a categorical cell as missing. */
  predicate IsMissingToken(norm: string) {
    norm == "?" || norm == "nan" || norm == "na" || norm == "null"
  }

  /** Whether a field's type prefix makes its column numeric. */
  predicate IsNumericName(name: string)
    requires |name| >= 2
  {
    name[..2] == "N:"
  }

  /** The categorical cells of `cells` that are not missing, in order. */
  function Present(cells: seq<string>, toLower: string -> string): (present: seq<string>)
    decreases |cells|
  {
    if cells == [] then []
    else
      var rest := Present(cells[..|cells| - 1], toLower);
      if IsMissingToken(toLower(cells[|cells| - 1])) then rest else rest + [cells[|cells| - 1]]
  }

  /** A value is present exactly when it is one of the cells and that cell is not a missing token. */
  lemma {:induction false} PresentElements(xs: seq<string>, toLower: string -> string, v: string)
    ensures v in Present(xs, toLower) <==>
      exists i :: 0 <= i < |xs| && xs[i] == v && !IsMissingToken(toLower(xs[i]))
    decreases |xs|
  {
    if xs != [] {
      var init := xs[..|xs| - 1];
      PresentElements(init, toLower, v);
      if v in Present(xs, toLower) && v in Present(init, toLower) {
        var i :| 0 <= i < |init| && init[i] == v && !IsMissingToken(toLower(init[i]));
        assert xs[i] == init[i];
      }
      if exists i :: 0 <= i < |xs| && xs[i] == v && !IsMissingToken(toLower(xs[i])) {
        var i :| 0 <= i < |xs| && xs[i] == v && !IsMissingToken(toLower(xs[i]));
        if i < |xs| - 1 {
          assert init[i] == v;
        }
      }
    }
  }

  /** The distinct elements of `xs` in the order of their first occurrence. */
  function Dedup(xs: seq<string>): (d: seq<string>)
    decreases |xs|
  {
    if xs == [] then []
    else
      var d := Dedup(xs[..|xs| - 1]);
      if xs[|xs| - 1] in d then d else d + [xs[|xs| - 1]]
  }

  /** `Dedup` keeps exactly the elements of its input. */
  lemma {:induction false} DedupElements(xs: seq<string>, v: string)
    ensures v in Dedup(xs) <==> v in xs
    decreases |xs|
  {
    if xs != [] {
      var init := xs[..|xs| - 1];
      DedupElements(init, v);
      assert xs == init + [xs[|xs| - 1]];
    }
  }

  /** `Dedup` lists each element once. */
  lemma {:induction false} DedupDistinct(xs: seq<string>)
    ensures forall i, j :: 0 <= i < j < |Dedup(xs)| ==> Dedup(xs)[i] != Dedup(xs)[j]
    decreases |xs|
  {
    if xs != [] {
      DedupDistinct(xs[..|xs| - 1]);
    }
  }

  /**
   * What parsing `record` yields: a column named `record[0]`, numeric iff its
   * prefix is "N:", with one cell per field after the first. A numeric cell
   * the parser rejects is missing and stores 0.0; a categorical cell is
   * missing iff its lower-cased text is a missing token and then stores code
   * 0, any other cell stores the encoder's code of its text. The encoder's
   * strings are the present cells' distinct values in first-seen order.
   */
  ghost predicate IsParsed(f: Feature, record: seq<string>, parseFloat: string -> Option<real>, toLower: string -> string)
    reads if f.CatFeature? then {f.cats} else {}
  {
    && |record| >= 1 && |record[0]| >= 2
    && f.name == record[0]
    && (f.NumFeature? <==> IsNumericName(record[0]))
    && WellFormed(f)
    && |f.missing| == |record| - 1
    && match f
       case NumFeature(_, xs, m) =>
         forall i :: 0 <= i < |m| ==>
           && (m[i] <==> parseFloat(record[i + 1]).None?)
           && xs[i] == parseFloat(record[i + 1]).GetOr(0.0)
       case CatFeature(_, cm, cs, m) =>
         && cm.Valid()
         && cm.Back == Dedup(Present(record[1..], toLower))
         && forall i :: 0 <= i < |m| ==> IsCatCell(record[i + 1], cs[i], m[i], cm.Back, toLower)
  }

  /**
   * The numeric branch's cell loop: one value and one missing flag per field
   * of `fields`; a field the parser rejects becomes a missing 0.0.
   */
  method ParseNumCells(fields: seq<string>, parseFloat: string -> Option<real>)
    returns (numData: seq<real>, missing: seq<bool>)
    ensures |numData| == |missing| == |fields|
    ensures forall j :: 0 <= j < |fields| ==>
      && (missing[j] <==> parseFloat(fields[j]).None?)
      && numData[j] == parseFloat(fields[j]).GetOr(0.0)
  {
    numData, missing := [], [];
    var i := 0;
    while i < |fields|
      invariant 0 <= i <= |fields|
      invariant |numData| == |missing| == i
      invariant forall j :: 0 <= j < i ==>
        && (missing[j] <==> parseFloat(fields[j]).None?)
        && numData[j] == parseFloat(fields[j]).GetOr(0.0)
    {
      var v := parseFloat(fields[i]);
      if v.None? {
        numData := numData + [0.0];
        missing := missing + [true];
      } else {
        numData := numData + [v.value];
        missing := missing + [false];
      }
      i := i + 1;
    }
  }

  /** One categorical cell, as stored: `code` and `miss` for the text `field` under the strings `back`. */
  predicate IsCatCell(field: string, code: int, miss: bool, back: seq<string>, toLower: string -> string) {
    && (miss <==> IsMissingToken(toLower(field)))
    && (miss ==> code == 0)
    && (!miss ==> 0 <= code < |back| && back[code] == field)
  }

  /** Extending the cells read so far by one field extends the present values by it unless it is missing. */
  lemma PresentSnoc(fields: seq<string>, i: int, toLower: string -> string)
    requires 0 <= i < |fields|
    ensures Present(fields[..i + 1], toLower)
      == if IsMissingToken(toLower(fields[i])) then Present(fields[..i], toLower)
         else Present(fields[..i], toLower) + [fields[i]]
  {
    assert fields[..i + 1][..i] == fields[..i];
  }

  /**
   * Cells stored under `back0` stay valid when the encoder's strings grow to
   * `back1`, and one more valid cell extends them.
   */
  lemma CatCellsStep(fields: seq<string>, catData: seq<int>, missing: seq<bool>, i: int,
                     back0: seq<string>, back1: seq<string>, code: int, miss: bool, toLower: string -> string)
    requires 0 <= i < |fields| && |catData| == |missing| == i
    requires back0 <= back1
    requires forall j :: 0 <= j < i ==> IsCatCell(fields[j], catData[j], missing[j], back0, toLower)
    requires IsCatCell(fields[i], code, miss, back1, toLower)
    ensures forall j :: 0 <= j < i + 1 ==>
      IsCatCell(fields[j], (catData + [code])[j], (missing + [miss])[j], back1, toLower)
  {
  }

  /**
   * The encoder's strings after one more field: unchanged for a missing token
   * or a known value, the value appended otherwise.
   */
  lemma BackStep(fields: seq<string>, i: int, toLower: string -> string, back0: seq<string>, back1: seq<string>)
    requires 0 <= i < |fields|
    requires back0 == Dedup(Present(fields[..i], toLower))
    requires IsMissingToken(toLower(fields[i])) ==> back1 == back0
    requires !IsMissingToken(toLower(fields[i])) && fields[i] in back0 ==> back1 == back0
    requires !IsMissingToken(toLower(fields[i])) && fields[i] !in back0 ==> back1 == back0 + [fields[i]]
    ensures back1 == Dedup(Present(fields[..i + 1], toLower))
    ensures back0 <= back1
  {
    PresentSnoc(fields, i, toLower);
    DedupElements(Present(fields[..i], toLower), fields[i]);
  }

  /**
   * The categorical branch's cell loop: a field whose lower-cased text is a
   * missing token becomes a missing code 0; any other field is encoded by `cm`.
   */
  method ParseCatCells(fields: seq<string>, toLower: string -> string, cm: CatMap)
    returns (catData: seq<int>, missing: seq<bool>)
    requires cm.Valid() && cm.Back == []
    modifies cm
    ensures cm.Valid()
    ensures cm.Back == Dedup(Present(fields, toLower))
    ensures |catData| == |missing| == |fields|
    ensures forall j :: 0 <= j < |fields| ==> IsCatCell(fields[j], catData[j], missing[j], cm.Back, toLower)
  {
    catData, missing := [], [];
    var i := 0;
    while i < |fields|
      invariant 0 <= i <= |fields|
      invariant |catData| == |missing| == i
      invariant cm.Valid()
      invariant cm.Back == Dedup(Present(fields[..i], toLower))
      invariant forall j :: 0 <= j < i ==> IsCatCell(fields[j], catData[j], missing[j], cm.Back, toLower)
    {
      var v := fields[i];
      ghost var back0 := cm.Back;
      var code, miss;
      if IsMissingToken(toLower(v)) {
        code, miss := 0, true;
      } else {
        code := cm.CatToNum(v);
        miss := false;
      }
      BackStep(fields, i, toLower, back0, cm.Back);
      CatCellsStep(fields, catData, missing, i, back0, cm.Back, code, miss, toLower);
      catData, missing := catData + [code], missing + [miss];
      i := i + 1;
    }
    assert fields[..i] == fields;
  }

  /**
   * Parses one row. The row must hold its name field and that name at least
   * its two-character prefix: shorter input makes the original code panic.
   */
  method ParseFeature(record: seq<string>, parseFloat: string -> Option<real>, toLower: string -> string)
    returns (f: Feature)
    requires |record| >= 1 && |record[0]| >= 2
    ensures IsParsed(f, record, parseFloat, toLower)
    ensures f.CatFeature? ==> fresh(f.cats)
  {
    if IsNumericName(record[0]) {
      var numData, missing := ParseNumCells(record[1..], parseFloat);
      f := NumFeature(record[0], numData, missing);
    } else {
      var cm := new CatMap();
      var catData, missing := ParseCatCells(record[1..], toLower, cm);
      f := CatFeature(record[0], cm, catData, missing);
    }
  }
}
