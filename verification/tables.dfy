/** Material property tables.

    A table is what `Filer.load_data` builds: an insertion-ordered dict from a
    column key (`Temp` for the temperature axis, otherwise a material or a
    cooler name) to a column of samples. Order matters because the integral
    transform skips the first key. A dict holds each key once: `BuildTable`
    builds a table the way `load_data` fills its dict, and the tables it
    builds have distinct keys, on which `Find` returns the one column with
    the key.
 */
module Tables {
  import opened Outcomes

  /** One named column of a property table. */
  datatype Column<T> = Column(key: string, cells: seq<T>)

  type Table<T> = seq<Column<T>>

  /** The key of the temperature axis. */
  const TempKey: string := "Temp"

  /** Piecewise-linear table lookup `np.interp(x, xp, fp)`, supplied from outside. */
  type Interp = (real, seq<real>, seq<real>) -> real

  /** The first column of `table` with key `key`, as a dict lookup would find it. */
  function Find<T>(table: Table<T>, key: string): (r: Option<seq<T>>)
    ensures r.Some? <==> exists j :: 0 <= j < |table| && table[j].key == key
    ensures r.Some? ==> exists j :: 0 <= j < |table| && table[j].key == key && table[j].cells == r.value
  {
    if |table| == 0 then None
    else if table[0].key == key then Some(table[0].cells)
    else
      var r := Find(table[1..], key);
      assert forall j :: 1 <= j < |table| ==> table[j] == table[1..][j - 1];
      assert r.Some? ==> exists j :: 1 <= j < |table| && table[j].key == key && table[j].cells == r.value by {
        if r.Some? {
          var j :| 0 <= j < |table[1..]| && table[1..][j].key == key && table[1..][j].cells == r.value;
          assert table[j + 1] == table[1..][j];
        }
      }
      r
  }

  /** No two columns share a key, as in a dict. */
  predicate DistinctKeys<T>(t: Table<T>) {
    forall a, b :: 0 <= a < b < |t| ==> t[a].key != t[b].key
  }

  /** A table with the same keys in the same places as a dict is a dict. */
  lemma KeysKept<T, U>(t: Table<T>, u: Table<U>)
    requires |u| == |t| && forall j :: 0 <= j < |t| ==> u[j].key == t[j].key
    ensures DistinctKeys(t) ==> DistinctKeys(u)
  {
  }

  /** On a table with distinct keys, `Find` returns the column that has the key. */
  lemma {:induction false} FindDistinct<T>(t: Table<T>, j: nat)
    requires DistinctKeys(t) && j < |t|
    ensures Find(t, t[j].key) == Some(t[j].cells)
    decreases |t|
  {
    if j > 0 {
      assert t[1..][j - 1] == t[j];
      FindDistinct(t[1..], j - 1);
    }
  }

  /** `data[token] = col_vals`: a key already present keeps its position and
      takes the new cells; a new key is appended. */
  function Store<T>(t: Table<T>, col: Column<T>): (r: Table<T>)
    requires DistinctKeys(t)
    ensures DistinctKeys(r)
    ensures Find(r, col.key) == Some(col.cells)
    ensures forall k :: k != col.key ==> Find(r, k) == Find(t, k)
    ensures Find(t, col.key).Some? ==> |r| == |t| && forall j :: 0 <= j < |t| ==> r[j].key == t[j].key
    ensures Find(t, col.key).None? ==> r == t + [col]
  {
    if Find(t, col.key).Some? then
      var r := seq(|t|, j requires 0 <= j < |t| => if t[j].key == col.key then col else t[j]);
      StoreReplaces(t, col, r);
      r
    else
      StoreAppends(t, col);
      t + [col]
  }

  lemma StoreReplaces<T>(t: Table<T>, col: Column<T>, r: Table<T>)
    requires DistinctKeys(t) && Find(t, col.key).Some?
    requires |r| == |t| && forall j :: 0 <= j < |t| ==> r[j] == (if t[j].key == col.key then col else t[j])
    ensures DistinctKeys(r) && Find(r, col.key) == Some(col.cells)
    ensures forall k :: k != col.key ==> Find(r, k) == Find(t, k)
  {
    var j0 :| 0 <= j0 < |t| && t[j0].key == col.key;
    assert forall j :: 0 <= j < |t| ==> r[j].key == t[j].key;
    FindDistinct(r, j0);
    forall k | k != col.key
      ensures Find(r, k) == Find(t, k)
    {
      FindAgree(t, r, k);
    }
  }

  lemma StoreAppends<T>(t: Table<T>, col: Column<T>)
    requires DistinctKeys(t) && Find(t, col.key).None?
    ensures DistinctKeys(t + [col]) && Find(t + [col], col.key) == Some(col.cells)
    ensures forall k :: k != col.key ==> Find(t + [col], k) == Find(t, k)
  {
    var r := t + [col];
    assert forall j :: 0 <= j < |t| ==> r[j] == t[j];
    FindDistinct(r, |t|);
    forall k | k != col.key
      ensures Find(r, k) == Find(t, k)
    {
      FindAppend(t, col, k);
    }
  }

  /** Two tables with the same keys in the same places, which agree on every
      column with key `k`, give the same lookup of `k`. */
  lemma {:induction false} FindAgree<T>(t: Table<T>, u: Table<T>, k: string)
    requires |u| == |t| && forall j :: 0 <= j < |t| ==> u[j].key == t[j].key
    requires forall j :: 0 <= j < |t| && t[j].key == k ==> u[j] == t[j]
    ensures Find(u, k) == Find(t, k)
    decreases |t|
  {
    if |t| > 0 && t[0].key != k {
      FindAgree(t[1..], u[1..], k);
    }
  }

  /** Appending a column with another key does not change a lookup. */
  lemma {:induction false} FindAppend<T>(t: Table<T>, col: Column<T>, k: string)
    requires col.key != k
    ensures Find(t + [col], k) == Find(t, k)
    decreases |t|
  {
    if |t| > 0 {
      assert (t + [col])[0] == t[0] && (t + [col])[1..] == t[1..] + [col];
      FindAppend(t[1..], col, k);
    }
  }

  /** The header loop of `Filer.load_data`: the columns stored in order under
      their header keys. Every header key is in the table and no other,
      and a repeated key holds the cells of its last occurrence. */
  function BuildTable<T>(cols: seq<Column<T>>): (r: Table<T>)
    ensures DistinctKeys(r)
    ensures forall j :: 0 <= j < |cols| ==> Find(r, cols[j].key).Some?
    ensures forall k :: Find(r, k).Some? ==> exists j :: 0 <= j < |cols| && cols[j].key == k
    ensures forall j :: 0 <= j < |cols| && (forall m :: j < m < |cols| ==> cols[m].key != cols[j].key) ==>
              Find(r, cols[j].key) == Some(cols[j].cells)
    decreases |cols|
  {
    if |cols| == 0 then []
    else
      var prev := BuildTable(cols[..|cols| - 1]);
      var r := Store(prev, cols[|cols| - 1]);
      BuildTableStep(cols, cols[..|cols| - 1], prev, r);
      r
  }

  lemma BuildTableStep<T>(cols: seq<Column<T>>, init: seq<Column<T>>, prev: Table<T>, r: Table<T>)
    requires |cols| > 0 && init == cols[..|cols| - 1]
    requires forall j :: 0 <= j < |init| ==> Find(prev, init[j].key).Some?
    requires forall k :: Find(prev, k).Some? ==> exists j :: 0 <= j < |init| && init[j].key == k
    requires forall j :: 0 <= j < |init| && (forall m :: j < m < |init| ==> init[m].key != init[j].key) ==>
               Find(prev, init[j].key) == Some(init[j].cells)
    requires Find(r, cols[|cols| - 1].key) == Some(cols[|cols| - 1].cells)
    requires forall k :: k != cols[|cols| - 1].key ==> Find(r, k) == Find(prev, k)
    ensures forall j :: 0 <= j < |cols| ==> Find(r, cols[j].key).Some?
    ensures forall k :: Find(r, k).Some? ==> exists j :: 0 <= j < |cols| && cols[j].key == k
    ensures forall j :: 0 <= j < |cols| && (forall m :: j < m < |cols| ==> cols[m].key != cols[j].key) ==>
              Find(r, cols[j].key) == Some(cols[j].cells)
  {
    BuildKeysPresent(cols, init, prev, r);
    BuildKeysOnly(cols, init, prev, r);
    BuildLastWins(cols, init, prev, r);
  }

  lemma BuildKeysPresent<T>(cols: seq<Column<T>>, init: seq<Column<T>>, prev: Table<T>, r: Table<T>)
    requires |cols| > 0 && init == cols[..|cols| - 1]
    requires forall j :: 0 <= j < |init| ==> Find(prev, init[j].key).Some?
    requires Find(r, cols[|cols| - 1].key).Some?
    requires forall k :: k != cols[|cols| - 1].key ==> Find(r, k) == Find(prev, k)
    ensures forall j :: 0 <= j < |cols| ==> Find(r, cols[j].key).Some?
  {
    forall j | 0 <= j < |cols| - 1
      ensures Find(r, cols[j].key).Some?
    {
      assert init[j] == cols[j];
    }
  }

  lemma BuildKeysOnly<T>(cols: seq<Column<T>>, init: seq<Column<T>>, prev: Table<T>, r: Table<T>)
    requires |cols| > 0 && init == cols[..|cols| - 1]
    requires forall k :: Find(prev, k).Some? ==> exists j :: 0 <= j < |init| && init[j].key == k
    requires forall k :: k != cols[|cols| - 1].key ==> Find(r, k) == Find(prev, k)
    ensures forall k :: Find(r, k).Some? ==> exists j :: 0 <= j < |cols| && cols[j].key == k
  {
    var n := |cols| - 1;
    forall k | Find(r, k).Some?
      ensures exists j :: 0 <= j < |cols| && cols[j].key == k
    {
      if k != cols[n].key {
        var j :| 0 <= j < n && init[j].key == k;
        assert init[j] == cols[j];
      }
    }
  }

  lemma BuildLastWins<T>(cols: seq<Column<T>>, init: seq<Column<T>>, prev: Table<T>, r: Table<T>)
    requires |cols| > 0 && init == cols[..|cols| - 1]
    requires forall j :: 0 <= j < |init| && (forall m :: j < m < |init| ==> init[m].key != init[j].key) ==>
               Find(prev, init[j].key) == Some(init[j].cells)
    requires Find(r, cols[|cols| - 1].key) == Some(cols[|cols| - 1].cells)
    requires forall k :: k != cols[|cols| - 1].key ==> Find(r, k) == Find(prev, k)
    ensures forall j :: 0 <= j < |cols| && (forall m :: j < m < |cols| ==> cols[m].key != cols[j].key) ==>
              Find(r, cols[j].key) == Some(cols[j].cells)
  {
    var n := |cols| - 1;
    forall j | 0 <= j < n && (forall m :: j < m < |cols| ==> cols[m].key != cols[j].key)
      ensures Find(r, cols[j].key) == Some(cols[j].cells)
    {
      assert cols[n].key != cols[j].key;
      assert init[j] == cols[j];
      assert forall m :: j < m < n ==> init[m] == cols[m];
    }
  }

  /** A repeated header: the second `Cu` column replaces the first in place. */
  lemma BuildTableRepeatedKey()
    ensures BuildTable([Column(TempKey, [1, 2]), Column("Cu", [3, 4]), Column("Cu", [5, 6])])
            == [Column(TempKey, [1, 2]), Column("Cu", [5, 6])]
  {
    var c1, c2, c3 := Column(TempKey, [1, 2]), Column("Cu", [3, 4]), Column("Cu", [5, 6]);
    BuildTableTwoKeys();
    assert [c1, c2, c3][..2] == [c1, c2];
    assert Find([c1, c2], "Cu").Some?;
    var r := Store([c1, c2], c3);
    assert r[0] == c1 && r[1] == c3;
  }

  lemma BuildTableTwoKeys()
    ensures BuildTable([Column(TempKey, [1, 2]), Column("Cu", [3, 4])]) == [Column(TempKey, [1, 2]), Column("Cu", [3, 4])]
  {
    var c1, c2 := Column(TempKey, [1, 2]), Column("Cu", [3, 4]);
    assert BuildTable([c1]) == [c1] by {
      assert [c1][..0] == [];
    }
    assert [c1, c2][..1] == [c1];
    assert Find([c1], "Cu").None?;
  }

  /** `np.interp(x, table['Temp'], table[key])`, with the KeyErrors of the two
      dict lookups in the order the source evaluates them. */
  function Lookup(table: Table<real>, key: string, x: real, interp: Interp): (r: Result<real>)
    ensures Find(table, TempKey).None? ==> r == Err(KeyMissing(TempKey))
    ensures Find(table, TempKey).Some? && Find(table, key).None? ==> r == Err(KeyMissing(key))
    ensures r.Ok? <==> Find(table, TempKey).Some? && Find(table, key).Some?
    ensures r.Ok? ==> r.value == interp(x, Find(table, TempKey).value, Find(table, key).value)
  {
    var temps :- Find(table, TempKey).ToResult(KeyMissing(TempKey));
    var column :- Find(table, key).ToResult(KeyMissing(key));
    Ok(interp(x, temps, column))
  }

  /** The three catalogs the simulator loads once and shares: heat capacity
      (`capacity.csv`), cooler power curves (`coolers.csv`) and conductivity
      already turned into integrals (`conductivity.csv`), with the lookup
      routine used on all of them. */
  datatype Catalogs = Catalogs(
    capacity: Table<real>,
    cooling: Table<real>,
    conductivityIntegrals: Table<real>,
    interp: Interp)
}
