/** The SQL product repository over an abstract `products` table: a map from
    primary key to the row's other eight columns. A full-table query returns
    rows in ascending key order, SQLite's rowid order. */
module ProductRepository {
  import opened Wrappers
  import opened Entities

  /** One row of the `products` table (`ProductModel`) without its key. */
  datatype ProductRow = ProductRow(
    name: string,
    brand: string,
    category: string,
    size: string,
    color: string,
    price: real,
    stock: int,
    description: string)

  /** The table, keyed by product id. */
  type ProductTable = map<int, ProductRow>

  /* ------------------------------------------------- ORM <-> entity mapping */

  /** The entity a row would become, before validation. */
  function RowFields(id: int, row: ProductRow): ProductData {
    ProductData(Some(id), row.name, row.brand, row.category, row.size, row.color,
                row.price, row.stock, row.description)
  }

  /** `_model_to_entity`: copies the nine columns into a `Product`, whose
      constructor re-validates them. */
  function ToEntity(id: int, row: ProductRow): (r: Result<Product, Error>)
    ensures r.Success? <==> RowFields(id, row).Valid()
    ensures r.Success? ==> r.value == RowFields(id, row)
  {
    NewProduct(Some(id), row.name, row.brand, row.category, row.size, row.color,
               row.price, row.stock, row.description)
  }

  /** `_entity_to_model` without the key, which the table holds separately.
      Under whatever key it is stored, the row reads back as the product
      carrying that key. */
  function ToRow(p: Product): (r: ProductRow)
    ensures forall id :: ToEntity(id, r) == Success(p.(id := Some(id)))
  {
    ProductRow(p.name, p.brand, p.category, p.size, p.color, p.price, p.stock, p.description)
  }

  /** Reading a row and writing the product back gives the same row. */
  lemma RowRoundTrip(id: int, row: ProductRow)
    requires ToEntity(id, row).Success?
    ensures ToRow(ToEntity(id, row).value) == row
  {
  }

  /** Every row of the table reads back as a valid `Product`. */
  predicate WellFormed(t: ProductTable) {
    forall id :: id in t ==> RowFields(id, t[id]).Valid()
  }

  /* ---------------------------------------------------------- key ordering */

  /** A non-empty set of keys has a member. */
  lemma HasMember(keys: set<int>)
    requires keys != {}
    ensures exists x :: x in keys
  {
    if forall x :: x !in keys {
      assert false;
    }
  }

  /** A non-empty set of keys has a least member. */
  lemma {:induction false} HasMinimum(keys: set<int>)
    requires keys != {}
    ensures exists m :: m in keys && forall k :: k in keys ==> m <= k
    decreases |keys|
  {
    HasMember(keys);
    var x :| x in keys;
    var others := keys - {x};
    if others == {} {
      forall k | k in keys
        ensures x <= k
      {
        assert k !in others;
      }
    } else {
      HasMinimum(others);
      var m :| m in others && forall k :: k in others ==> m <= k;
      var least := if x < m then x else m;
      forall k | k in keys
        ensures least <= k
      {
        if k != x {
          assert k in others;
        }
      }
      assert least in keys;
    }
  }

  /** The smallest key of a non-empty set. */
  function Minimum(keys: set<int>): (m: int)
    requires keys != {}
    ensures m in keys && forall k :: k in keys ==> m <= k
  {
    HasMinimum(keys);
    var m :| m in keys && forall k :: k in keys ==> m <= k;
    m
  }

  /** The keys in ascending order, each once. */
  function SortedKeys(keys: set<int>): (r: seq<int>)
    ensures forall i, j :: 0 <= i < j < |r| ==> r[i] < r[j]
    ensures forall k :: k in keys <==> k in r
    decreases |keys|
  {
    if keys == {} then []
    else
      var m := Minimum(keys);
      var rest := SortedKeys(keys - {m});
      [m] + rest
  }

  /** The key SQLite gives a row inserted without one: one more than the
      largest key in the table, or 1 for an empty table. */
  function NextId(t: ProductTable): (r: int)
    ensures forall id :: id in t ==> id < r
    ensures r !in t
    ensures |t| == 0 ==> r == 1
    ensures |t| > 0 ==> r - 1 in t
  {
    var ks := SortedKeys(t.Keys);
    if |ks| == 0 then 1
    else
      assert forall id :: id in t ==> id in ks;
      assert forall i :: 0 <= i < |ks| ==> ks[i] <= ks[|ks| - 1];
      ks[|ks| - 1] + 1
  }

  /* ---------------------------------------------------------------- queries */

  /** The `WHERE` clause of a listing query. */
  datatype Criterion = Everything | BrandIs(brand: string) | CategoryIs(category: string)

  predicate Matches(row: ProductRow, c: Criterion) {
    match c
    case Everything => true
    case BrandIs(b) => row.brand == b
    case CategoryIs(cat) => row.category == cat
  }

  /** The keys among `keys` whose rows match `c`, in the order of `keys`. */
  function MatchingKeys(t: ProductTable, keys: seq<int>, c: Criterion): (r: seq<int>)
    requires forall i :: 0 <= i < |keys| ==> keys[i] in t
    ensures forall k :: 0 <= k < |r| ==> r[k] in keys && r[k] in t && Matches(t[r[k]], c)
    ensures forall i :: 0 <= i < |keys| && Matches(t[keys[i]], c) ==> keys[i] in r
  {
    if |keys| == 0 then []
    else
      var rest := MatchingKeys(t, keys[1..], c);
      assert forall i :: 1 <= i < |keys| ==> keys[i] == keys[1..][i - 1];
      if Matches(t[keys[0]], c) then [keys[0]] + rest else rest
  }

  /** Strictly increasing keys. */
  predicate Increasing(xs: seq<int>) {
    forall i, j :: 0 <= i < j < |xs| ==> xs[i] < xs[j]
  }

  /** Filtering increasing keys keeps them increasing. */
  lemma {:induction false} MatchingKeysAscending(t: ProductTable, keys: seq<int>, c: Criterion)
    requires forall i :: 0 <= i < |keys| ==> keys[i] in t
    requires Increasing(keys)
    ensures Increasing(MatchingKeys(t, keys, c))
  {
    if |keys| > 0 {
      var tail := keys[1..];
      MatchingKeysAscending(t, tail, c);
      var rest := MatchingKeys(t, tail, c);
      forall k | 0 <= k < |rest|
        ensures keys[0] < rest[k]
      {
        var i :| 0 <= i < |tail| && tail[i] == rest[k];
        assert tail[i] == keys[i + 1];
      }
      if Matches(t[keys[0]], c) {
        IncreasingCons(keys[0], rest);
      }
    }
  }

  lemma IncreasingCons(x: int, xs: seq<int>)
    requires Increasing(xs)
    requires forall k :: 0 <= k < |xs| ==> x < xs[k]
    ensures Increasing([x] + xs)
  {
    var r := [x] + xs;
    forall k, l | 0 <= k < l < |r|
      ensures r[k] < r[l]
    {
      assert r[l] == xs[l - 1];
      if k > 0 {
        assert r[k] == xs[k - 1];
      }
    }
  }

  /** `_model_to_entity` over the rows with the given keys: fails exactly
      when one of those rows does not validate; on success, one entity per
      key, in order. */
  function ToEntities(t: ProductTable, ids: seq<int>): (r: Result<seq<Product>, Error>)
    requires forall k :: 0 <= k < |ids| ==> ids[k] in t
    ensures r.Success? <==> forall k :: 0 <= k < |ids| ==> RowFields(ids[k], t[ids[k]]).Valid()
    ensures r.Success? ==>
      |r.value| == |ids| && forall k :: 0 <= k < |ids| ==> r.value[k] == RowFields(ids[k], t[ids[k]])
  {
    if |ids| == 0 then Success([])
    else
      match ToEntity(ids[0], t[ids[0]])
      case Failure(e) => Failure(e)
      case Success(p) =>
        match ToEntities(t, ids[1..])
        case Failure(e) =>
          TailInvalid(t, ids);
          Failure(e)
        case Success(ps) =>
          ConsEntities(t, ids, p, ps);
          Success([p] + ps)
  }

  /** The position of a key whose row does not validate. */
  function FirstInvalid(t: ProductTable, ids: seq<int>): (k: nat)
    requires forall k :: 0 <= k < |ids| ==> ids[k] in t
    requires exists k :: 0 <= k < |ids| && !RowFields(ids[k], t[ids[k]]).Valid()
    ensures k < |ids| && !RowFields(ids[k], t[ids[k]]).Valid()
  {
    if !RowFields(ids[0], t[ids[0]]).Valid() then 0
    else
      assert exists k :: 0 <= k < |ids[1..]| && !RowFields(ids[1..][k], t[ids[1..][k]]).Valid() by {
        var k :| 0 <= k < |ids| && !RowFields(ids[k], t[ids[k]]).Valid();
        assert ids[k] == ids[1..][k - 1];
      }
      1 + FirstInvalid(t, ids[1..])
  }

  /** A key after the first whose row does not validate is a key of the
      whole list whose row does not validate. */
  lemma TailInvalid(t: ProductTable, ids: seq<int>)
    requires forall k :: 0 <= k < |ids| ==> ids[k] in t
    requires |ids| > 0
    requires !forall k :: 0 <= k < |ids| - 1 ==> RowFields(ids[1..][k], t[ids[1..][k]]).Valid()
    ensures !forall k :: 0 <= k < |ids| ==> RowFields(ids[k], t[ids[k]]).Valid()
  {
    var j := FirstInvalid(t, ids[1..]);
    assert ids[1..][j] == ids[j + 1];
  }

  /** The pointwise contract of `ToEntities` carries over to one more key. */
  lemma ConsEntities(t: ProductTable, ids: seq<int>, p: Product, ps: seq<Product>)
    requires forall k :: 0 <= k < |ids| ==> ids[k] in t
    requires |ids| > 0 && p == RowFields(ids[0], t[ids[0]])
    requires |ps| == |ids| - 1
    requires forall k :: 0 <= k < |ps| ==> ps[k] == RowFields(ids[1..][k], t[ids[1..][k]])
    ensures forall k :: 0 <= k < |ids| ==> ([p] + ps)[k] == RowFields(ids[k], t[ids[k]])
  {
    forall k | 0 < k < |ids|
      ensures ([p] + ps)[k] == RowFields(ids[k], t[ids[k]])
    {
      assert ids[k] == ids[1..][k - 1];
    }
  }

  /** Every product of `ps` is a stored row matching `c`, as it reads back. */
  predicate FromTable(t: ProductTable, c: Criterion, ps: seq<Product>) {
    forall k :: 0 <= k < |ps| ==>
      && ps[k].id.Some? && ps[k].id.value in t
      && Matches(t[ps[k].id.value], c)
      && ps[k] == RowFields(ps[k].id.value, t[ps[k].id.value])
  }

  /** Every stored row matching `c` appears in `ps`. */
  predicate Covers(t: ProductTable, c: Criterion, ps: seq<Product>) {
    forall id :: id in t && Matches(t[id], c) ==>
      exists k :: 0 <= k < |ps| && ps[k].id == Some(id)
  }

  /** The products are in strictly ascending id order. */
  predicate Ascending(ps: seq<Product>)
    requires forall k :: 0 <= k < |ps| ==> ps[k].id.Some?
  {
    forall k, l :: 0 <= k < l < |ps| ==> ps[k].id.value < ps[l].id.value
  }

  /** A listing query: every stored row matching `c`, in ascending id order;
      it fails only when one of those rows does not validate. */
  function Select(t: ProductTable, c: Criterion): (r: Result<seq<Product>, Error>)
    ensures WellFormed(t) ==> r.Success?
    ensures r.Success? ==> FromTable(t, c, r.value) && Covers(t, c, r.value) && Ascending(r.value)
  {
    var ks := SortedKeys(t.Keys);
    var ids := MatchingKeys(t, ks, c);
    var r := ToEntities(t, ids);
    SelectFacts(t, c, ks, ids, r);
    r
  }

  lemma SelectFacts(t: ProductTable, c: Criterion, ks: seq<int>, ids: seq<int>,
                    r: Result<seq<Product>, Error>)
    requires forall i, j :: 0 <= i < j < |ks| ==> ks[i] < ks[j]
    requires forall i :: 0 <= i < |ks| ==> ks[i] in t
    requires forall k :: k in t.Keys ==> k in ks
    requires ids == MatchingKeys(t, ks, c)
    requires r == ToEntities(t, ids)
    ensures WellFormed(t) ==> r.Success?
    ensures r.Success? ==> FromTable(t, c, r.value) && Covers(t, c, r.value) && Ascending(r.value)
  {
    if r.Success? {
      SelectFromTable(t, c, ids, r.value);
      SelectCovers(t, c, ks, ids, r.value);
      SelectAscending(t, c, ks, ids, r.value);
    }
  }

  lemma SelectFromTable(t: ProductTable, c: Criterion, ids: seq<int>, ps: seq<Product>)
    requires forall k :: 0 <= k < |ids| ==> ids[k] in t && Matches(t[ids[k]], c)
    requires |ps| == |ids|
    requires forall k :: 0 <= k < |ids| ==> ps[k] == RowFields(ids[k], t[ids[k]])
    ensures FromTable(t, c, ps)
  {
    forall k | 0 <= k < |ps|
      ensures ps[k].id == Some(ids[k])
    {
    }
  }

  lemma SelectCovers(t: ProductTable, c: Criterion, ks: seq<int>, ids: seq<int>, ps: seq<Product>)
    requires forall i :: 0 <= i < |ks| ==> ks[i] in t
    requires forall k :: k in t.Keys ==> k in ks
    requires ids == MatchingKeys(t, ks, c)
    requires |ps| == |ids|
    requires forall k :: 0 <= k < |ids| ==> ps[k] == RowFields(ids[k], t[ids[k]])
    ensures Covers(t, c, ps)
  {
    forall id | id in t && Matches(t[id], c)
      ensures exists k :: 0 <= k < |ps| && ps[k].id == Some(id)
    {
      var i :| 0 <= i < |ks| && ks[i] == id;
      assert id in ids;
      var k :| 0 <= k < |ids| && ids[k] == id;
      assert ps[k].id == Some(id);
    }
  }

  lemma SelectAscending(t: ProductTable, c: Criterion, ks: seq<int>, ids: seq<int>, ps: seq<Product>)
    requires forall i, j :: 0 <= i < j < |ks| ==> ks[i] < ks[j]
    requires forall i :: 0 <= i < |ks| ==> ks[i] in t
    requires ids == MatchingKeys(t, ks, c)
    requires |ps| == |ids|
    requires forall k :: 0 <= k < |ids| ==> ps[k] == RowFields(ids[k], t[ids[k]])
    ensures forall k :: 0 <= k < |ps| ==> ps[k].id.Some?
    ensures Ascending(ps)
  {
    MatchingKeysAscending(t, ks, c);
    forall k | 0 <= k < |ps|
      ensures ps[k].id == Some(ids[k])
    {
    }
  }

  /** `get_all()`: every stored product, one per row, in ascending id order. */
  function GetAll(t: ProductTable): (r: Result<seq<Product>, Error>)
    ensures WellFormed(t) ==> r.Success?
    ensures r.Success? ==> |r.value| == |t|
    ensures r.Success? ==> FromTable(t, Everything, r.value) && Covers(t, Everything, r.value)
    ensures r.Success? ==> Ascending(r.value)
  {
    var r := Select(t, Everything);
    if r.Failure? then r
    else
      DistinctIdsCover(t, r.value);
      r
  }

  /** A strictly id-ordered list of products whose ids are exactly the keys
      of the table has one product per row. */
  lemma DistinctIdsCover(t: ProductTable, ps: seq<Product>)
    requires FromTable(t, Everything, ps) && Covers(t, Everything, ps) && Ascending(ps)
    ensures |ps| == |t|
  {
    var ids := set k | 0 <= k < |ps| :: ps[k].id.value;
    forall id | id in t
      ensures id in ids
    {
      var k :| 0 <= k < |ps| && ps[k].id == Some(id);
    }
    assert ids == t.Keys;
    IdsCount(ps);
  }

  lemma {:induction false} IdsCount(ps: seq<Product>)
    requires forall k :: 0 <= k < |ps| ==> ps[k].id.Some?
    requires forall k, l :: 0 <= k < l < |ps| ==> ps[k].id.value < ps[l].id.value
    ensures |set k | 0 <= k < |ps| :: ps[k].id.value| == |ps|
  {
    if |ps| > 0 {
      var last := |ps| - 1;
      var front := ps[..last];
      IdsCount(front);
      var all := set k | 0 <= k < |ps| :: ps[k].id.value;
      var before := set k | 0 <= k < |front| :: front[k].id.value;
      assert all == before + {ps[last].id.value};
      assert ps[last].id.value !in before;
    }
  }

  /** `get_by_brand(brand)`: exactly the stored products of that brand. */
  function GetByBrand(t: ProductTable, brand: string): (r: Result<seq<Product>, Error>)
    ensures WellFormed(t) ==> r.Success?
    ensures r.Success? ==> forall k :: 0 <= k < |r.value| ==> r.value[k].brand == brand
    ensures r.Success? ==>
      FromTable(t, BrandIs(brand), r.value) && Covers(t, BrandIs(brand), r.value) && Ascending(r.value)
  {
    Select(t, BrandIs(brand))
  }

  /** `get_by_category(category)`: exactly the stored products of that
      category. */
  function GetByCategory(t: ProductTable, category: string): (r: Result<seq<Product>, Error>)
    ensures WellFormed(t) ==> r.Success?
    ensures r.Success? ==> forall k :: 0 <= k < |r.value| ==> r.value[k].category == category
    ensures r.Success? ==>
      FromTable(t, CategoryIs(category), r.value) && Covers(t, CategoryIs(category), r.value) && Ascending(r.value)
  {
    Select(t, CategoryIs(category))
  }

  /** `get_by_id(product_id)`: the stored product, or None when no row has
      that id. */
  function GetById(t: ProductTable, id: int): (r: Result<Option<Product>, Error>)
    ensures id !in t ==> r == Success(None)
    ensures id in t ==> (r.Success? <==> RowFields(id, t[id]).Valid())
    ensures id in t && r.Success? ==> r.value == Some(RowFields(id, t[id]))
  {
    if id !in t then Success(None)
    else
      match ToEntity(id, t[id])
      case Failure(e) => Failure(e)
      case Success(p) => Success(Some(p))
  }

  /* ------------------------------------------------------------------ save */

  /** Python's truth value of an optional id: None and 0 are false. */
  predicate Truthy(id: Option<int>) {
    id.Some? && id.value != 0
  }

  /** The key `save` writes under: a truthy id itself; the explicit id 0,
      which is the integrity error when 0 is taken; a fresh key for None. */
  function SaveKey(t: ProductTable, id: Option<int>): (r: Result<int, Error>)
    ensures Truthy(id) ==> r == Success(id.value)
    ensures id == Some(0) ==> r == (if 0 in t then Failure(DuplicateId(0)) else Success(0))
    ensures id.None? ==> r.Success? && r.value !in t
  {
    if Truthy(id) then Success(id.value)
    else if id.Some? then (if id.value in t then Failure(DuplicateId(id.value)) else Success(id.value))
    else Success(NextId(t))
  }

  /** `save(product)`: with a truthy id, overwrites the eight columns of the
      row with that id, or inserts a row under that id when there is none;
      otherwise inserts a row, under the explicit id 0 when the id is 0 (the
      integrity error if 0 is taken) and under a fresh key when it is None.
      Returns the product as stored. */
  function Save(t: ProductTable, p: Product): (r: (ProductTable, Result<Product, Error>))
    ensures r.1.Failure? <==> p.id == Some(0) && 0 in t
    ensures r.1.Failure? ==> r.0 == t && r.1.error == DuplicateId(0)
    ensures r.1.Success? ==> r.1.value.id.Some?
    ensures r.1.Success? ==>
      var k := r.1.value.id.value;
      && r.1.value == p.(id := Some(k))
      && (p.id.Some? ==> k == p.id.value)
      && (p.id.None? ==> k !in t)
      && r.0.Keys == t.Keys + {k}
      && r.0[k] == ToRow(p)
      && forall j :: j in t && j != k ==> r.0[j] == t[j]
    ensures WellFormed(t) ==> WellFormed(r.0)
  {
    match SaveKey(t, p.id)
    case Failure(e) => (t, Failure(e))
    case Success(id) =>
      var t' := Store(t, id, p);
      (t', ToEntity(id, t'[id]))
  }

  /** The write of `save` under key `id`: the update branch when a row with
      that key exists, the insert branch otherwise. Either way the key ends up
      holding the product's columns and no other row changes. */
  function Store(t: ProductTable, id: int, p: Product): (r: ProductTable)
    ensures r.Keys == t.Keys + {id}
    ensures r[id] == ToRow(p)
    ensures forall j :: j in t && j != id ==> r[j] == t[j]
    ensures WellFormed(t) ==> WellFormed(r)
  {
    var row := if id in t then Overwrite(t[id], p) else ToRow(p);
    assert RowFields(id, row) == p.(id := Some(id));
    t[id := row]
  }

  /** The update branch of `save`: every column of the stored row is
      overwritten by the product's field, so nothing of the old row is left. */
  function Overwrite(model: ProductRow, p: Product): (r: ProductRow)
    ensures r == ToRow(p)
  {
    model.(name := p.name, brand := p.brand, category := p.category,
           size := p.size, color := p.color, price := p.price,
           stock := p.stock, description := p.description)
  }

  /* ---------------------------------------------------------------- delete */

  /** `delete(product_id)`: false and no change when the id is absent;
      otherwise removes exactly that row and returns true. */
  function Delete(t: ProductTable, id: int): (r: (ProductTable, bool))
    ensures r.1 <==> id in t
    ensures r.0.Keys == t.Keys - {id}
    ensures forall j :: j in r.0 ==> r.0[j] == t[j]
    ensures WellFormed(t) ==> WellFormed(r.0)
  {
    if id !in t then (t, false) else (t - {id}, true)
  }

  /* -------------------------------------------------------------- relations */

  /** What `save` returns is what `get_by_id` then finds. */
  lemma SaveThenGetById(t: ProductTable, p: Product)
    requires Save(t, p).1.Success?
    ensures var (t', r) := Save(t, p);
      GetById(t', r.value.id.value) == Success(Some(r.value))
  {
  }

  /** After `delete`, `get_by_id` finds nothing under that id. */
  lemma DeleteThenGetById(t: ProductTable, id: int)
    ensures GetById(Delete(t, id).0, id) == Success(None)
  {
  }

  /** Deleting a freshly inserted product restores the table. */
  lemma InsertThenDelete(t: ProductTable, p: Product)
    requires p.id.None?
    ensures var (t', r) := Save(t, p);
      r.Success? && Delete(t', r.value.id.value) == (t, true)
  {
    var (t', r) := Save(t, p);
    RemoveFresh(t, t', r.value.id.value);
  }

  /** Removing the one key a table gained gives back the table. */
  lemma RemoveFresh(t: ProductTable, t': ProductTable, k: int)
    requires k !in t && t'.Keys == t.Keys + {k}
    requires forall j :: j in t ==> t'[j] == t[j]
    ensures t' - {k} == t
  {
    assert (t' - {k}).Keys == t.Keys;
    forall j | j in t
      ensures (t' - {k})[j] == t[j]
    {
    }
  }
}
