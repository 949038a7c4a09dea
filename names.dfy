/**
 * The name index of a feature matrix. Writing `m[name] = pos` for a column
 * appended at `pos` overwrites any earlier entry of the same name, so after a
 * run of appends each name maps to the LAST position that carries it.
 */
module Names {
  import opened Features

  /** `m` after registering the columns `fs`, appended from position `base` on, one by one. */
  function Register(m: map<string, int>, base: int, fs: seq<Feature>): (r: map<string, int>)
    decreases |fs|
  {
    if fs == [] then m
    else Register(m, base, fs[..|fs| - 1])[fs[|fs| - 1].name := base + |fs| - 1]
  }

  /** The index a matrix holding exactly `data`, registered in order, carries. */
  function NameIndex(data: seq<Feature>): (index: map<string, int>) {
    Register(map[], 0, data)
  }

  /** The names the columns of `fs` carry. */
  function ColumnNames(fs: seq<Feature>): (names: set<string>) {
    set j | 0 <= j < |fs| :: fs[j].name
  }

  /** No later column of `fs` carries the name of column `j`. */
  predicate IsLastNamed(fs: seq<Feature>, j: int) {
    0 <= j < |fs| && forall k :: j < k < |fs| ==> fs[k].name != fs[j].name
  }

  /** No two columns of `fs` share a name. */
  predicate DistinctNames(fs: seq<Feature>) {
    forall i, j :: 0 <= i < j < |fs| ==> fs[i].name != fs[j].name
  }

  /** Registering two runs of columns one after the other registers their concatenation. */
  lemma {:induction false} RegisterConcat(m: map<string, int>, base: int, d: seq<Feature>, fs: seq<Feature>)
    ensures Register(Register(m, base, d), base + |d|, fs) == Register(m, base, d + fs)
    decreases |fs|
  {
    if fs == [] {
      assert d + fs == d;
    } else {
      var init := fs[..|fs| - 1];
      RegisterConcat(m, base, d, init);
      assert (d + fs)[..|d + fs| - 1] == d + init;
    }
  }

  /** Registering adds exactly the appended names as keys. */
  lemma {:induction false} RegisterKeys(m: map<string, int>, base: int, fs: seq<Feature>)
    ensures Register(m, base, fs).Keys == m.Keys + ColumnNames(fs)
    decreases |fs|
  {
    if fs != [] {
      var init := fs[..|fs| - 1];
      RegisterKeys(m, base, init);
      assert ColumnNames(fs) == ColumnNames(init) + {fs[|fs| - 1].name} by {
        forall v | v in ColumnNames(fs) ensures v in ColumnNames(init) + {fs[|fs| - 1].name} {
          var j :| 0 <= j < |fs| && fs[j].name == v;
          if j < |fs| - 1 { assert init[j].name == v; }
        }
        forall v | v in ColumnNames(init) ensures v in ColumnNames(fs) {
          var j :| 0 <= j < |init| && init[j].name == v;
          assert fs[j].name == v;
        }
      }
    }
  }

  /** A key no appended column carries keeps its old entry. */
  lemma {:induction false} RegisterUntouched(m: map<string, int>, base: int, fs: seq<Feature>, k: string)
    requires forall j :: 0 <= j < |fs| ==> fs[j].name != k
    ensures k in Register(m, base, fs) <==> k in m
    ensures k in m ==> Register(m, base, fs)[k] == m[k]
    decreases |fs|
  {
    if fs != [] {
      RegisterUntouched(m, base, fs[..|fs| - 1], k);
    }
  }

  /** An appended column's name maps to its own position or to a later one. */
  lemma {:induction false} RegisterAtLeast(m: map<string, int>, base: int, fs: seq<Feature>, j: int)
    requires 0 <= j < |fs|
    ensures fs[j].name in Register(m, base, fs)
    ensures base + j <= Register(m, base, fs)[fs[j].name] < base + |fs|
    decreases |fs|
  {
    var init := fs[..|fs| - 1];
    if j < |fs| - 1 && fs[j].name != fs[|fs| - 1].name {
      RegisterAtLeast(m, base, init, j);
    }
  }

  /** The last appended column carrying a name is the one that name maps to. */
  lemma {:induction false} RegisterLast(m: map<string, int>, base: int, fs: seq<Feature>, j: int)
    requires IsLastNamed(fs, j)
    ensures fs[j].name in Register(m, base, fs)
    ensures Register(m, base, fs)[fs[j].name] == base + j
    decreases |fs|
  {
    var init := fs[..|fs| - 1];
    if j < |fs| - 1 {
      RegisterLast(m, base, init, j);
    }
  }

  /**
   * Every appended column's name is registered at its own position or a later
   * one, and exactly at its own position when no later column repeats it.
   */
  lemma {:induction false} RegisterPositions(m: map<string, int>, base: int, fs: seq<Feature>)
    ensures forall j :: 0 <= j < |fs| ==>
      fs[j].name in Register(m, base, fs) && base + j <= Register(m, base, fs)[fs[j].name]
    ensures forall j :: IsLastNamed(fs, j) ==> Register(m, base, fs)[fs[j].name] == base + j
  {
    forall j | 0 <= j < |fs|
      ensures fs[j].name in Register(m, base, fs) && base + j <= Register(m, base, fs)[fs[j].name]
    {
      RegisterAtLeast(m, base, fs, j);
    }
    forall j | IsLastNamed(fs, j)
      ensures Register(m, base, fs)[fs[j].name] == base + j
    {
      RegisterLast(m, base, fs, j);
    }
  }

  /** The keys of the index of `data` are the names of its columns. */
  lemma NameIndexKeys(data: seq<Feature>)
    ensures NameIndex(data).Keys == ColumnNames(data)
  {
    RegisterKeys(map[], 0, data);
  }

  /** With distinct names, the index sends every column's name to that column's position. */
  lemma DistinctNamesInSync(data: seq<Feature>)
    requires DistinctNames(data)
    ensures forall j :: 0 <= j < |data| ==> data[j].name in NameIndex(data) && NameIndex(data)[data[j].name] == j
  {
    forall j | 0 <= j < |data|
      ensures data[j].name in NameIndex(data) && NameIndex(data)[data[j].name] == j
    {
      RegisterLast(map[], 0, data, j);
    }
  }

  /**
   * A column whose name a later column repeats is shadowed: the index does not
   * send its name to its position.
   */
  lemma DuplicateNameShadowed(data: seq<Feature>, i: int, j: int)
    requires 0 <= i < j < |data| && data[i].name == data[j].name
    ensures data[i].name in NameIndex(data) && NameIndex(data)[data[i].name] != i
  {
    RegisterAtLeast(map[], 0, data, j);
  }
}
