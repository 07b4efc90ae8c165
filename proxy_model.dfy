// treemodel's qt/proxymodel.py without Qt: ItemIndexMap, the ordered set
// with swap-remove that gives table rows to items; the column maps and data
// store of ItemDataModel; and the column maps of ProxyTreeModel.

module ProxyModel {
  import opened Wrappers

  datatype ModelError = IndexError | KeyError | ValueError

  // ----- Positions: dict((x, i) for i, x in enumerate(xs)) -----

  /** Each element of `xs` mapped to its position; a later duplicate overwrites an earlier one. */
  function Positions<K>(xs: seq<K>): map<K, int>
    decreases |xs|
  {
    if xs == [] then map[] else Positions(xs[..|xs| - 1])[xs[|xs| - 1] := |xs| - 1]
  }

  /**
   * Positions maps exactly the elements of `xs`, each to the position of its
   * last occurrence, so indexing `xs` there gives the element back.
   */
  lemma {:induction false} PositionsSpec<K>(xs: seq<K>)
    ensures Positions(xs).Keys == set x | x in xs
    ensures forall x | x in Positions(xs) :: 0 <= Positions(xs)[x] < |xs| && xs[Positions(xs)[x]] == x
    ensures forall x, j | x in Positions(xs) && Positions(xs)[x] < j < |xs| :: xs[j] != x
    decreases |xs|
  {
    if xs != [] {
      var init := xs[..|xs| - 1];
      PositionsSpec(init);
      assert xs == init + [xs[|xs| - 1]];
      assert (set x | x in xs) == (set x | x in init) + {xs[|xs| - 1]};
    }
  }

  /** Every element's position is at or after its own index. */
  lemma PositionsLast<K>(xs: seq<K>, i: int)
    requires 0 <= i < |xs|
    ensures xs[i] in Positions(xs) && Positions(xs)[xs[i]] >= i
  {
    PositionsSpec(xs);
    assert xs[i] in set x | x in xs;
  }

  // ----- ItemIndexMap -----

  /** The two fields of an ItemIndexMap: item to row, and row to item. */
  datatype IndexMap<T> = IndexMap(index: map<T, int>, items: seq<T>)

  /** The map and the list describe the same items, each at its row. */
  ghost predicate Indexed<T>(s: IndexMap<T>) {
    && (forall i | 0 <= i < |s.items| :: s.items[i] in s.index && s.index[s.items[i]] == i)
    && (forall x | x in s.index :: 0 <= s.index[x] < |s.items| && s.items[s.index[x]] == x)
  }

  /** item(index): Python list indexing, a negative index counting from the end, None out of range. */
  function ItemAt<T>(s: IndexMap<T>, i: int): Option<T> {
    if 0 <= i < |s.items| then Some(s.items[i])
    else if -|s.items| <= i < 0 then Some(s.items[|s.items| + i])
    else None
  }

  /** index(item): the row of `item`, None when absent. */
  function IndexOf<T>(s: IndexMap<T>, x: T): Option<int> {
    if x in s.index then Some(s.index[x]) else None
  }

  /**
   * On an indexed map, item and index are inverse: the row of an item holds
   * it, the item at a row has that row, and item gives None exactly out of
   * Python's index range.
   */
  lemma ItemIndexRoundTrip<T>(s: IndexMap<T>, x: T, i: int)
    requires Indexed(s)
    ensures IndexOf(s, x).Some? ==> ItemAt(s, IndexOf(s, x).value) == Some(x)
    ensures 0 <= i < |s.items| ==> IndexOf(s, ItemAt(s, i).value) == Some(i)
    ensures ItemAt(s, i).None? <==> !(-|s.items| <= i < |s.items|)
  {
  }

  /** An indexed map holds no item twice. */
  lemma IndexedDistinct<T>(s: IndexMap<T>, i: int, j: int)
    requires Indexed(s) && 0 <= i < |s.items| && 0 <= j < |s.items| && i != j
    ensures s.items[i] != s.items[j]
  {
  }

  /** addItem(item): the existing row, or the item appended and its new row. */
  function AddOf<T>(s: IndexMap<T>, x: T): (IndexMap<T>, int) {
    if x in s.index then (s, s.index[x])
    else (IndexMap(s.index[x := |s.items|], s.items + [x]), |s.items|)
  }

  /**
   * addItem keeps the map indexed, adds exactly `x`, returns the row that
   * now holds it (the old one if it was present, the new last one if not),
   * and adding again changes nothing.
   */
  lemma AddSpec<T>(s: IndexMap<T>, x: T)
    requires Indexed(s)
    ensures var a := AddOf(s, x);
      && Indexed(a.0) && a.0.index.Keys == s.index.Keys + {x}
      && ItemAt(a.0, a.1) == Some(x) && IndexOf(a.0, x) == Some(a.1)
      && (x in s.index ==> a == (s, s.index[x]))
      && (x !in s.index ==> a.0.items == s.items + [x] && a.1 == |s.items|)
      && AddOf(a.0, x) == (a.0, a.1)
  {
  }

  /** `l` with position `i` set to `v`, as Python's `l[i] = v`; None for IndexError. */
  function PyStore<T>(l: seq<T>, i: int, v: T): Option<seq<T>> {
    if 0 <= i < |l| then Some(l[i := v])
    else if -|l| <= i < 0 then Some(l[|l| + i := v])
    else None
  }

  /**
   * removeItem(item) as written: the row is popped from the map, the last
   * item popped from the list and stored at that row, and re-indexed there.
   * Removing the item in the last row leaves the list one shorter than the
   * row, so the store raises IndexError after both pops.
   */
  function RemoveAsWritten<T>(s: IndexMap<T>, x: T): (IndexMap<T>, Result<bool, ModelError>) {
    if x !in s.index then (s, Success(false))
    else
      var i, m := s.index[x], s.index - {x};
      if s.items == [] then (IndexMap(m, s.items), Failure(IndexError))
      else
        var replacement, l := s.items[|s.items| - 1], s.items[..|s.items| - 1];
        match PyStore(l, i, replacement)
        case None => (IndexMap(m, l), Failure(IndexError))
        case Some(l') => (IndexMap(m[replacement := i], l'), Success(true))
  }

  /**
   * removeItem as it evidently should be: the item in the last row is
   * simply popped; any other item is replaced by the last one.
   */
  function RemoveOf<T>(s: IndexMap<T>, x: T): (IndexMap<T>, Result<bool, ModelError>) {
    if x in s.index && s.items != [] && s.index[x] == |s.items| - 1 then
      (IndexMap(s.index - {x}, s.items[..|s.items| - 1]), Success(true))
    else RemoveAsWritten(s, x)
  }

  /**
   * As written, removing an item that is not in the last row keeps the map
   * indexed, drops exactly that item, shortens the list by one and returns
   * true; an absent item changes nothing and returns false.
   */
  lemma RemoveAsWrittenSpec<T>(s: IndexMap<T>, x: T)
    requires Indexed(s)
    ensures x !in s.index ==> RemoveAsWritten(s, x) == (s, Success(false))
    ensures x in s.index && s.index[x] < |s.items| - 1 ==>
      var r := RemoveAsWritten(s, x);
      && r.1 == Success(true) && Indexed(r.0)
      && r.0.index.Keys == s.index.Keys - {x} && |r.0.items| == |s.items| - 1
  {
    if x in s.index && s.index[x] < |s.items| - 1 {
      RemoveAsWrittenSwaps(s, x);
      RemoveSwapIndexed(s, x);
    }
  }

  /** Below the last row, the code as written moves the last item into the
      removed item's row. */
  lemma RemoveAsWrittenSwaps<T>(s: IndexMap<T>, x: T)
    requires x in s.index && 0 <= s.index[x] < |s.items| - 1
    ensures var i, n := s.index[x], |s.items| - 1;
      RemoveAsWritten(s, x)
        == (IndexMap((s.index - {x})[s.items[n] := i], s.items[..n][i := s.items[n]]), Success(true))
  {
  }

  /** Moving the last item into the removed item's row keeps the map indexed. */
  lemma RemoveSwapIndexed<T>(s: IndexMap<T>, x: T)
    requires Indexed(s) && x in s.index && s.index[x] < |s.items| - 1
    ensures var i, n := s.index[x], |s.items| - 1;
      var r := IndexMap((s.index - {x})[s.items[n] := i], s.items[..n][i := s.items[n]]);
      Indexed(r) && r.index.Keys == s.index.Keys - {x}
  {
    var i, n := s.index[x], |s.items| - 1;
    var last := s.items[n];
    var r := IndexMap((s.index - {x})[last := i], s.items[..n][i := last]);
    assert last != x by {
      IndexedDistinct(s, i, n);
    }
    forall k | 0 <= k < |r.items| ensures r.items[k] in r.index && r.index[r.items[k]] == k {
      if k != i {
        IndexedDistinct(s, k, i);
        IndexedDistinct(s, k, n);
      }
    }
    forall y | y in r.index ensures 0 <= r.index[y] < |r.items| && r.items[r.index[y]] == y {
      if y != last {
        assert y in s.index && s.index[y] != i && s.index[y] != n;
      }
    }
  }

  /** The finding: removing the item in the last row, such as the only item, raises IndexError. */
  lemma RemoveLastFails<T>(s: IndexMap<T>, x: T)
    requires Indexed(s) && x in s.index && s.index[x] == |s.items| - 1
    ensures RemoveAsWritten(s, x).1 == Failure(IndexError)
    ensures RemoveAsWritten(IndexMap(map[x := 0], [x]), x).1 == Failure(IndexError)
  {
  }

  /**
   * The corrected removeItem never fails on an indexed map: it keeps the
   * map indexed, drops exactly `x`, shortens the list by one exactly when
   * `x` was present, and reports whether it was.
   */
  lemma RemoveSpec<T>(s: IndexMap<T>, x: T)
    requires Indexed(s)
    ensures var r := RemoveOf(s, x);
      && r.1 == Success(x in s.index) && Indexed(r.0)
      && r.0.index.Keys == s.index.Keys - {x}
      && |r.0.items| == if x in s.index then |s.items| - 1 else |s.items|
  {
    if x in s.index {
      if s.index[x] < |s.items| - 1 {
        RemoveSwapIndexed(s, x);
      } else {
        var r := RemoveOf(s, x).0;
        forall y | y in r.index ensures 0 <= r.index[y] < |r.items| && r.items[r.index[y]] == y {
          assert y in s.index && s.index[y] != |s.items| - 1;
        }
      }
    }
  }

  class ItemIndexMap<T(==)> {
    var itemIndexMap: map<T, int>
    var itemList: seq<T>

    function State(): IndexMap<T>
      reads this
    {
      IndexMap(itemIndexMap, itemList)
    }

    /** A new map is empty. */
    constructor()
      ensures State() == IndexMap(map[], [])
    {
      itemIndexMap := map[];
      itemList := [];
    }

    /** addItem(item): adds the item unless present and returns its row. */
    method AddItem(item: T) returns (index: int)
      modifies this
      ensures (State(), index) == old(AddOf(State(), item))
    {
      if item in itemIndexMap {
        return itemIndexMap[item];
      }
      itemList := itemList + [item];
      index := |itemList| - 1;
      itemIndexMap := itemIndexMap[item := index];
    }

    /**
     * removeItem(item), with the last row popped rather than overwritten:
     * whether the item was present, or IndexError on an inconsistent map.
     */
    method RemoveItem(item: T) returns (r: Result<bool, ModelError>)
      modifies this
      ensures (State(), r) == old(RemoveOf(State(), item))
    {
      if item !in itemIndexMap {
        return Success(false);
      }
      var index := itemIndexMap[item];
      itemIndexMap := itemIndexMap - {item};
      if itemList == [] {
        return Failure(IndexError);
      }
      var replacement := itemList[|itemList| - 1];
      itemList := itemList[..|itemList| - 1];
      if index == |itemList| {
        return Success(true);
      }
      if 0 <= index < |itemList| {
        itemList := itemList[index := replacement];
      } else if -|itemList| <= index < 0 {
        itemList := itemList[|itemList| + index := replacement];
      } else {
        return Failure(IndexError);
      }
      itemIndexMap := itemIndexMap[replacement := index];
      r := Success(true);
    }
  }

  // ----- ItemDataModel -----

  /** A table column (its label is the heading); only its name matters to the lookups. */
  datatype Column = Column(name: string, heading: string)

  /** A column as a name or as a position. */
  datatype ColumnRef = ByName(name: string) | ByIndex(index: int)

  /** A row as an item or as its position in the item-index map. */
  datatype ItemOrRow<T> = AsItem(item: T) | AsRow(row: int)

  function Names(cols: seq<Column>): (r: seq<string>)
    ensures |r| == |cols| && forall i | 0 <= i < |cols| :: r[i] == cols[i].name
  {
    seq(|cols|, i requires 0 <= i < |cols| => cols[i].name)
  }

  /** setColumns: the name of each column mapped to its position, the last of equal names winning. */
  function NameIndex(cols: seq<Column>): map<string, int> {
    Positions(Names(cols))
  }

  /** column(indexOrName): the column with that name or at that Python index, or None. */
  function ColumnOf(cols: seq<Column>, ref: ColumnRef): Option<Column> {
    match ref
    case ByName(n) =>
      var names := NameIndex(cols);
      if n in names && 0 <= names[n] < |cols| then Some(cols[names[n]]) else None
    case ByIndex(i) =>
      if 0 <= i < |cols| then Some(cols[i])
      else if -|cols| <= i < 0 then Some(cols[|cols| + i])
      else None
  }

  /**
   * A name finds a column exactly when some column has it, and then the
   * last column with that name; a position finds the column there, counted
   * from the end when negative.
   */
  lemma ColumnOfSpec(cols: seq<Column>, n: string, i: int)
    ensures ColumnOf(cols, ByName(n)).Some? <==> exists k | 0 <= k < |cols| :: cols[k].name == n
    ensures ColumnOf(cols, ByName(n)).Some? ==>
      var k := NameIndex(cols)[n];
      && ColumnOf(cols, ByName(n)).value == cols[k] && cols[k].name == n
      && forall j | k < j < |cols| :: cols[j].name != n
    ensures 0 <= i < |cols| ==> ColumnOf(cols, ByIndex(i)) == Some(cols[i])
    ensures ColumnOf(cols, ByIndex(i)).None? <==> !(-|cols| <= i < |cols|)
  {
    var names := Names(cols);
    PositionsSpec(names);
    if exists k | 0 <= k < |cols| :: cols[k].name == n {
      var k :| 0 <= k < |cols| && cols[k].name == n;
      assert names[k] == n;
      assert n in set x | x in names;
    }
    if n in NameIndex(cols) {
      var k := NameIndex(cols)[n];
      assert names[k] == n;
      forall j | k < j < |cols| ensures cols[j].name != n {
        assert names[j] != n;
      }
    }
  }

  /** The item named by an item, or found at a row of the map (None out of range). */
  function RowItem<T>(s: IndexMap<T>, r: ItemOrRow<T>): Option<T> {
    match r
    case AsItem(x) => Some(x)
    case AsRow(i) => ItemAt(s, i)
  }

  /** getItemData(itemOrRow, column, role): the stored value, or None. */
  function GetDataOf<T, V>(s: IndexMap<T>, cols: seq<Column>, store: map<(T, string, int), V>,
                           r: ItemOrRow<T>, c: ColumnRef, role: int): Option<V> {
    var item := RowItem(s, r);
    var col := ColumnOf(cols, c);
    if item.None? || col.None? then None
    else if (item.value, col.value.name, role) in store then Some(store[(item.value, col.value.name, role)])
    else None
  }

  /**
   * setItemData(itemOrRow, column, role, value): False for a row out of
   * range; ValueError for an item not in the map; False for an unknown
   * column; otherwise the value is stored under (item, column name, role).
   */
  function SetDataOf<T, V>(s: IndexMap<T>, cols: seq<Column>, store: map<(T, string, int), V>,
                           r: ItemOrRow<T>, c: ColumnRef, role: int, value: V)
    : (map<(T, string, int), V>, Result<bool, ModelError>)
  {
    var item := RowItem(s, r);
    if item.None? then (store, Success(false))
    else if item.value !in s.index then (store, Failure(ValueError))
    else
      var col := ColumnOf(cols, c);
      if col.None? then (store, Success(false))
      else (store[(item.value, col.value.name, role) := value], Success(true))
  }

  /**
   * What setItemData stores, getItemData returns: after a successful set,
   * the same item, column and role give the value back, and every other
   * (item, column name, role) keeps its value; an item not in the map
   * raises ValueError and an unknown column returns False, both storing
   * nothing.
   */
  lemma SetGetRoundTrip<T, V>(s: IndexMap<T>, cols: seq<Column>, store: map<(T, string, int), V>,
                              r: ItemOrRow<T>, c: ColumnRef, role: int, value: V, key: (T, string, int))
    ensures var w := SetDataOf(s, cols, store, r, c, role, value);
      && (w.1 == Success(true) ==> GetDataOf(s, cols, w.0, r, c, role) == Some(value))
      && (w.1 == Success(true) && key != (RowItem(s, r).value, ColumnOf(cols, c).value.name, role) ==>
            (key in w.0 <==> key in store) && (key in store ==> w.0[key] == store[key]))
      && (w.1 != Success(true) ==> w.0 == store)
      && (r.AsItem? && r.item !in s.index ==> w.1 == Failure(ValueError))
      && (RowItem(s, r).Some? && RowItem(s, r).value in s.index && ColumnOf(cols, c).None? ==> w.1 == Success(false))
  {
  }

  class ItemDataModel<T(==), V> {
    /** The map giving table rows to items, shared with whoever passed it in. */
    const itemIndexMap: ItemIndexMap<T>
    var columns: seq<Column>
    var columnNameToIndex: map<string, int>
    var dataStore: map<(T, string, int), V>

    /**
     * The model uses the given map unless it is missing or empty (an empty
     * map is false to Python's `or`), in which case it makes a new one.
     */
    constructor(columns: seq<Column>, itemIndexMap: Option<ItemIndexMap<T>>)
      ensures this.columns == columns && columnNameToIndex == NameIndex(columns) && dataStore == map[]
      ensures itemIndexMap.Some? && itemIndexMap.value.itemList != [] ==> this.itemIndexMap == itemIndexMap.value
      ensures !(itemIndexMap.Some? && itemIndexMap.value.itemList != []) ==>
        fresh(this.itemIndexMap) && this.itemIndexMap.State() == IndexMap(map[], [])
    {
      if itemIndexMap.Some? && itemIndexMap.value.itemList != [] {
        this.itemIndexMap := itemIndexMap.value;
      } else {
        this.itemIndexMap := new ItemIndexMap();
      }
      this.columns := columns;
      columnNameToIndex := NameIndex(columns);
      dataStore := map[];
    }

    /** setColumns(columns): the columns, and each name mapped to its position. */
    method SetColumns(cols: seq<Column>)
      modifies this
      ensures columns == cols && columnNameToIndex == NameIndex(cols) && dataStore == old(dataStore)
    {
      columns := cols;
      var names: map<string, int> := map[];
      for i := 0 to |cols|
        invariant names == NameIndex(cols[..i])
      {
        assert Names(cols[..i + 1]) == Names(cols[..i]) + [cols[i].name];
        assert Names(cols[..i + 1])[..i] == Names(cols[..i]);
        names := names[cols[i].name := i];
      }
      assert cols[..|cols|] == cols;
      columnNameToIndex := names;
    }

    /** column(indexOrName), reading the stored name map. */
    function ColumnFor(ref: ColumnRef): (r: Option<Column>)
      reads this
      requires columnNameToIndex == NameIndex(columns)
      ensures r == ColumnOf(columns, ref)
    {
      match ref
      case ByName(n) =>
        if n in columnNameToIndex && 0 <= columnNameToIndex[n] < |columns| then Some(columns[columnNameToIndex[n]])
        else None
      case ByIndex(i) =>
        if 0 <= i < |columns| then Some(columns[i])
        else if -|columns| <= i < 0 then Some(columns[|columns| + i])
        else None
    }

    /** setItemData(itemOrRow, column, role, value). */
    method SetItemData(r: ItemOrRow<T>, c: ColumnRef, role: int, value: V) returns (ok: Result<bool, ModelError>)
      requires columnNameToIndex == NameIndex(columns)
      modifies this
      ensures columns == old(columns) && columnNameToIndex == old(columnNameToIndex)
      ensures (dataStore, ok) == old(SetDataOf(itemIndexMap.State(), columns, dataStore, r, c, role, value))
    {
      var item: T;
      if r.AsRow? {
        var found := ItemAt(itemIndexMap.State(), r.row);
        if found.None? {
          return Success(false);
        }
        item := found.value;
      } else {
        item := r.item;
      }
      if item !in itemIndexMap.itemIndexMap {
        return Failure(ValueError);
      }
      var col := ColumnFor(c);
      if col.None? {
        return Success(false);
      }
      dataStore := dataStore[(item, col.value.name, role) := value];
      ok := Success(true);
    }
  }

  // ----- ProxyTreeModel -----

  /** setSourceColumns' forward map: each source column name looked up in the source model, KeyError if unknown. */
  function ForwardMap(names: map<string, int>, sourceColumns: seq<string>): (r: Result<seq<int>, ModelError>)
    ensures r.Success? <==> forall n | n in sourceColumns :: n in names
    ensures r.Failure? ==> r.error == KeyError
    ensures r.Success? ==> |r.value| == |sourceColumns| && forall i | 0 <= i < |sourceColumns| :: r.value[i] == names[sourceColumns[i]]
    decreases |sourceColumns|
  {
    if sourceColumns == [] then Success([])
    else if sourceColumns[0] !in names then Failure(KeyError)
    else match ForwardMap(names, sourceColumns[1..])
      case Failure(e) => Failure(e)
      case Success(rest) =>
        assert forall n | n in sourceColumns[1..] :: n in sourceColumns;
        Success([names[sourceColumns[0]]] + rest)
  }

  /**
   * The source-to-proxy map is the inverse of the proxy-to-source list:
   * every source column shown maps to a proxy column showing it, the last
   * one when it is shown twice, and no other source column is mapped.
   */
  lemma SourceToProxyInverse(forward: seq<int>, i: int)
    requires 0 <= i < |forward|
    ensures Positions(forward).Keys == set v | v in forward
    ensures forward[i] in Positions(forward) && Positions(forward)[forward[i]] >= i
    ensures forall v | v in Positions(forward) :: 0 <= Positions(forward)[v] < |forward| && forward[Positions(forward)[v]] == v
  {
    PositionsSpec(forward);
    PositionsLast(forward, i);
  }

  class ProxyTreeModel<T(==), V> {
    const sourceModel: ItemDataModel<T, V>
    var proxyToSourceColumn: seq<int>
    var sourceToProxyColumn: map<int, int>

    constructor(sourceModel: ItemDataModel<T, V>)
      ensures this.sourceModel == sourceModel && proxyToSourceColumn == [] && sourceToProxyColumn == map[]
    {
      this.sourceModel := sourceModel;
      proxyToSourceColumn := [];
      sourceToProxyColumn := map[];
    }

    /**
     * setSourceColumns(sourceColumns), each given by name: KeyError, with
     * nothing changed, for a name the source model lacks; otherwise the
     * source positions in order, and their inverse.
     */
    method SetSourceColumns(sourceColumns: seq<string>) returns (r: Result<(), ModelError>)
      modifies this
      ensures var fw := ForwardMap(sourceModel.columnNameToIndex, sourceColumns);
        && (r.Success? <==> fw.Success?)
        && (fw.Success? ==> proxyToSourceColumn == fw.value && sourceToProxyColumn == Positions(fw.value))
        && (fw.Failure? ==>
              r == Failure(fw.error) && proxyToSourceColumn == old(proxyToSourceColumn)
              && sourceToProxyColumn == old(sourceToProxyColumn))
    {
      var names := sourceModel.columnNameToIndex;
      var forwardMap: seq<int> := [];
      for i := 0 to |sourceColumns|
        invariant ForwardMap(names, sourceColumns[..i]) == Success(forwardMap)
        invariant proxyToSourceColumn == old(proxyToSourceColumn) && sourceToProxyColumn == old(sourceToProxyColumn)
      {
        assert sourceColumns[..i + 1] == sourceColumns[..i] + [sourceColumns[i]];
        ForwardMapSnoc(names, sourceColumns[..i], sourceColumns[i]);
        if sourceColumns[i] !in names {
          assert sourceColumns[i] in sourceColumns;
          return Failure(KeyError);
        }
        forwardMap := forwardMap + [names[sourceColumns[i]]];
      }
      assert sourceColumns[..|sourceColumns|] == sourceColumns;
      proxyToSourceColumn := forwardMap;
      var inverse: map<int, int> := map[];
      for i := 0 to |forwardMap|
        invariant inverse == Positions(forwardMap[..i])
      {
        assert forwardMap[..i + 1][..i] == forwardMap[..i];
        inverse := inverse[forwardMap[i] := i];
      }
      assert forwardMap[..|forwardMap|] == forwardMap;
      sourceToProxyColumn := inverse;
      r := Success(());
    }
  }

  /** Looking up one more name. */
  lemma {:induction false} ForwardMapSnoc(names: map<string, int>, cols: seq<string>, n: string)
    requires ForwardMap(names, cols).Success?
    ensures n in names ==> ForwardMap(names, cols + [n]) == Success(ForwardMap(names, cols).value + [names[n]])
    ensures n !in names ==> ForwardMap(names, cols + [n]) == Failure(KeyError)
    decreases |cols|
  {
    if cols == [] {
      assert cols + [n] == [n] && [n][1..] == [];
      if n in names {
        assert [names[n]] + [] == [] + [names[n]];
      }
    } else {
      assert (cols + [n])[0] == cols[0] && (cols + [n])[1..] == cols[1..] + [n];
      ForwardMapSnoc(names, cols[1..], n);
      if n in names {
        var head, rest := [names[cols[0]]], ForwardMap(names, cols[1..]).value;
        assert ForwardMap(names, cols).value == head + rest;
        assert ForwardMap(names, cols + [n]) == Success(head + (rest + [names[n]]));
        assert head + (rest + [names[n]]) == (head + rest) + [names[n]];
      }
    }
  }
}
