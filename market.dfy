/**
 * The entities of the flea market and the queries the services run over them.
 * A seller holds its products as an ordered list of product ids; the product table maps
 * each id to the product record, whose owner field is the back-reference to its seller.
 */
module Market {
  import opened Errors

  type SellerId = int
  type ProductId = int

  /** A row of the seller table with its product list (Seller.java). */
  datatype Seller = Seller(id: SellerId, name: string, products: seq<ProductId>)

  /** A row of the product table (Product.java); owner is the seller_id column. */
  datatype Product = Product(id: ProductId, name: string, owner: SellerId)

  type ProductTable = map<ProductId, Product>

  /** existsSellerBySellerName: some stored seller has exactly this name. */
  predicate SellerExists(sellers: seq<Seller>, name: string): (b: bool)
    ensures b <==> name in (set s | s in sellers :: s.name)
  {
    exists i :: 0 <= i < |sellers| && sellers[i].name == name
  }

  /** findSellerBySellerName: the position of the first stored seller with this name. */
  function IndexOfSeller(sellers: seq<Seller>, name: string): (r: Option<nat>)
    ensures r.Some? ==> r.value < |sellers| && sellers[r.value].name == name
    ensures r.Some? ==> forall i :: 0 <= i < r.value ==> sellers[i].name != name
    ensures r.None? <==> !SellerExists(sellers, name)
  {
    if sellers == [] then None
    else if sellers[0].name == name then Some(0)
    else match IndexOfSeller(sellers[1..], name)
      case None => None
      case Some(k) => assert sellers[k + 1] == sellers[1..][k]; Some(k + 1)
  }

  /** Every id of the list has a row in the product table. */
  predicate ListedIn(table: ProductTable, ids: seq<ProductId>) {
    forall j :: 0 <= j < |ids| ==> ids[j] in table
  }

  /** Seller.getProduct(name): the position of the first product of the list with this name. */
  function IndexOfProduct(table: ProductTable, ids: seq<ProductId>, name: string): (r: Option<nat>)
    requires ListedIn(table, ids)
    ensures r.Some? ==> r.value < |ids| && table[ids[r.value]].name == name
    ensures r.Some? ==> forall j :: 0 <= j < r.value ==> table[ids[j]].name != name
    ensures r.None? <==> forall j :: 0 <= j < |ids| ==> table[ids[j]].name != name
  {
    if ids == [] then None
    else if table[ids[0]].name == name then Some(0)
    else match IndexOfProduct(table, ids[1..], name)
      case None => None
      case Some(k) => assert ids[k + 1] == ids[1..][k]; Some(k + 1)
  }

  /** getProducts() of a seller: the product rows of its list, in list order. */
  function ProductsOf(table: ProductTable, ids: seq<ProductId>): (r: seq<Product>)
    requires ListedIn(table, ids)
    ensures |r| == |ids|
    ensures forall j :: 0 <= j < |ids| ==> r[j] == table[ids[j]]
  {
    if ids == [] then [] else [table[ids[0]]] + ProductsOf(table, ids[1..])
  }

  /**
   * products.removeIf(p -> p.getProductName().equals(name)): the list without the entries of that name.
   * The kept entries stay in their relative order: RemoveNamedAppend shows that removal distributes
   * over concatenation, and RemoveUniqueName that with unique names exactly one entry goes.
   */
  function RemoveNamed(table: ProductTable, ids: seq<ProductId>, name: string): (r: seq<ProductId>)
    requires ListedIn(table, ids)
    ensures |r| <= |ids| && ListedIn(table, r)
    ensures forall j :: 0 <= j < |r| ==> r[j] in ids && table[r[j]].name != name
    ensures forall j :: 0 <= j < |ids| && table[ids[j]].name != name ==> ids[j] in r
  {
    if ids == [] then []
    else
      var rest := RemoveNamed(table, ids[1..], name);
      assert forall j :: 1 <= j < |ids| ==> ids[j] == ids[1..][j - 1];
      if table[ids[0]].name == name then rest else [ids[0]] + rest
  }

  /** Removing by name keeps the relative order of what stays: it distributes over concatenation. */
  lemma {:induction false} RemoveNamedAppend(table: ProductTable, a: seq<ProductId>, b: seq<ProductId>, name: string)
    requires ListedIn(table, a) && ListedIn(table, b)
    ensures ListedIn(table, a + b)
    ensures RemoveNamed(table, a + b, name) == RemoveNamed(table, a, name) + RemoveNamed(table, b, name)
  {
    if a == [] {
      assert a + b == b;
    } else {
      var ab := a + b;
      assert ab[0] == a[0] && ab[1..] == a[1..] + b;
      RemoveNamedAppend(table, a[1..], b, name);
    }
  }

  /** Removing a name no entry carries leaves the list as it was. */
  lemma {:induction false} RemoveAbsentName(table: ProductTable, ids: seq<ProductId>, name: string)
    requires ListedIn(table, ids)
    requires forall j :: 0 <= j < |ids| ==> table[ids[j]].name != name
    ensures RemoveNamed(table, ids, name) == ids
  {
    if ids != [] {
      RemoveAbsentName(table, ids[1..], name);
    }
  }

  /** No two entries of the list name the same product name. */
  predicate ProductNamesUnique(table: ProductTable, ids: seq<ProductId>)
    requires ListedIn(table, ids)
  {
    forall j, k :: 0 <= j < k < |ids| ==> table[ids[j]].name != table[ids[k]].name
  }

  /** When the list's names are unique, removing the name at position k removes that entry and no other. */
  lemma {:induction false} RemoveUniqueName(table: ProductTable, ids: seq<ProductId>, k: nat)
    requires ListedIn(table, ids) && ProductNamesUnique(table, ids)
    requires k < |ids|
    ensures RemoveNamed(table, ids, table[ids[k]].name) == ids[..k] + ids[k + 1..]
  {
    var name := table[ids[k]].name;
    UniqueTail(table, ids);
    if k == 0 {
      RemoveAbsentName(table, ids[1..], name);
    } else {
      RemoveUniqueName(table, ids[1..], k - 1);
      assert ids[1..][k - 1] == ids[k];
      CutAfterHead(ids, k);
    }
  }

  /** Cutting out position k > 0 of a list is keeping its head and cutting position k - 1 out of its tail. */
  lemma CutAfterHead(ids: seq<ProductId>, k: nat)
    requires 0 < k < |ids|
    ensures ids[..k] + ids[k + 1..] == [ids[0]] + (ids[1..][..k - 1] + ids[1..][k..])
  {
    assert ids[..k] == [ids[0]] + ids[1..][..k - 1];
    assert ids[k + 1..] == ids[1..][k..];
  }

  /** The tail of a list with unique names has unique names, none of them the name of the head. */
  lemma UniqueTail(table: ProductTable, ids: seq<ProductId>)
    requires ListedIn(table, ids) && ProductNamesUnique(table, ids) && ids != []
    ensures ListedIn(table, ids[1..]) && ProductNamesUnique(table, ids[1..])
    ensures forall j :: 0 <= j < |ids[1..]| ==> table[ids[1..][j]].name != table[ids[0]].name
  {
    assert forall j :: 0 <= j < |ids[1..]| ==> ids[1..][j] == ids[j + 1];
  }

  /** Seller has every product of its list in the table, and each of them points back to it. */
  predicate Owns(table: ProductTable, s: Seller) {
    ListedIn(table, s.products) &&
    forall j :: 0 <= j < |s.products| ==> table[s.products[j]].owner == s.id
  }

  /** No product id occurs twice in the list. */
  predicate Distinct(ids: seq<ProductId>) {
    forall j, k :: 0 <= j < k < |ids| ==> ids[j] != ids[k]
  }

  /** Seller's list misses no row that points to it, and lists each product once. */
  predicate ListsAll(table: ProductTable, s: Seller) {
    Distinct(s.products) &&
    forall pid :: pid in table && table[pid].owner == s.id ==> pid in s.products
  }

  /**
   * The structure the JPA mapping maintains: seller ids are distinct, every product row is
   * stored under its own id, and each seller's list is the set of rows whose seller_id is that
   * seller, each listed once (the list is the mappedBy side of that column).
   * A row whose owner is no longer a stored seller is allowed: deleting a seller does not cascade.
   */
  predicate Consistent(sellers: seq<Seller>, table: ProductTable) {
    (forall i, j :: 0 <= i < j < |sellers| ==> sellers[i].id != sellers[j].id) &&
    (forall pid :: pid in table ==> table[pid].id == pid) &&
    (forall i :: 0 <= i < |sellers| ==> Owns(table, sellers[i]) && ListsAll(table, sellers[i]))
  }

  /** Every seller id and every product owner is below nextSeller, and every product id below nextProduct. */
  predicate IdsBelow(sellers: seq<Seller>, table: ProductTable, nextSeller: SellerId, nextProduct: ProductId) {
    (forall i :: 0 <= i < |sellers| ==> sellers[i].id < nextSeller) &&
    (forall pid :: pid in table ==> pid < nextProduct && table[pid].owner < nextSeller)
  }

  /** No two sellers share a name. */
  predicate SellerNamesUnique(sellers: seq<Seller>) {
    forall i, j :: 0 <= i < j < |sellers| ==> sellers[i].name != sellers[j].name
  }

  /** The two rules the services enforce: seller names are unique, and product names are unique per seller. */
  predicate Unique(sellers: seq<Seller>, table: ProductTable) {
    SellerNamesUnique(sellers) &&
    forall i :: 0 <= i < |sellers| ==> ListedIn(table, sellers[i].products) && ProductNamesUnique(table, sellers[i].products)
  }

  /** A product listed by a seller of a consistent store is listed by no other seller. */
  lemma ListedByOneSeller(sellers: seq<Seller>, table: ProductTable, i: nat, i': nat, j: nat, j': nat)
    requires Consistent(sellers, table)
    requires i < |sellers| && i' < |sellers| && j < |sellers[i].products| && j' < |sellers[i'].products|
    requires sellers[i].products[j] == sellers[i'].products[j']
    ensures i == i'
  {
  }

  // The state changes of the services, on values. Each keeps the store consistent, and
  // keeps both uniqueness rules under the very guard the service checks before it.

  /** createSeller: append a seller with the next id, a new name and no products. */
  lemma AddSellerKeepsInvariants(sellers: seq<Seller>, table: ProductTable, id: SellerId, nextProduct: ProductId, name: string)
    requires Consistent(sellers, table) && IdsBelow(sellers, table, id, nextProduct)
    ensures Consistent(sellers + [Seller(id, name, [])], table)
    ensures IdsBelow(sellers + [Seller(id, name, [])], table, id + 1, nextProduct)
    ensures Unique(sellers, table) && !SellerExists(sellers, name) ==> Unique(sellers + [Seller(id, name, [])], table)
  {
  }

  /** deleteSeller: drop the seller at position i; the product rows stay. */
  lemma RemoveSellerKeepsInvariants(sellers: seq<Seller>, table: ProductTable, nextSeller: SellerId, nextProduct: ProductId, i: nat)
    requires Consistent(sellers, table) && IdsBelow(sellers, table, nextSeller, nextProduct) && i < |sellers|
    ensures Consistent(sellers[..i] + sellers[i + 1..], table)
    ensures IdsBelow(sellers[..i] + sellers[i + 1..], table, nextSeller, nextProduct)
    ensures Unique(sellers, table) ==> Unique(sellers[..i] + sellers[i + 1..], table)
  {
  }

  /** changeSellerName: rename the seller at position i to a name no seller has. */
  lemma RenameSellerKeepsInvariants(sellers: seq<Seller>, table: ProductTable, nextSeller: SellerId, nextProduct: ProductId, i: nat, name: string)
    requires Consistent(sellers, table) && IdsBelow(sellers, table, nextSeller, nextProduct) && i < |sellers|
    ensures Consistent(sellers[i := sellers[i].(name := name)], table)
    ensures IdsBelow(sellers[i := sellers[i].(name := name)], table, nextSeller, nextProduct)
    ensures Unique(sellers, table) && !SellerExists(sellers, name) ==> Unique(sellers[i := sellers[i].(name := name)], table)
  {
  }

  /** addProductToSeller: a new row under the next product id, appended to the list of the seller at position i. */
  lemma AddProductKeepsInvariants(sellers: seq<Seller>, table: ProductTable, nextSeller: SellerId, pid: ProductId, i: nat, name: string)
    requires Consistent(sellers, table) && IdsBelow(sellers, table, nextSeller, pid) && i < |sellers|
    ensures var s := sellers[i];
            Consistent(sellers[i := s.(products := s.products + [pid])], table[pid := Product(pid, name, s.id)])
    ensures var s := sellers[i];
            IdsBelow(sellers[i := s.(products := s.products + [pid])], table[pid := Product(pid, name, s.id)], nextSeller, pid + 1)
    ensures var s := sellers[i];
            Unique(sellers, table) && IndexOfProduct(table, s.products, name).None? ==>
            Unique(sellers[i := s.(products := s.products + [pid])], table[pid := Product(pid, name, s.id)])
  {
  }

  /** The seller's own list after deleteProduct, without the entry at k, is still its exact list once that row is gone. */
  lemma DeleteFromOwnList(table: ProductTable, s: Seller, k: nat)
    requires Owns(table, s) && ListsAll(table, s) && k < |s.products|
    ensures var t := table - {s.products[k]}; var s' := s.(products := s.products[..k] + s.products[k + 1..]);
            Owns(t, s') && ListsAll(t, s')
  {
    var t := table - {s.products[k]};
    var rest := s.products[..k] + s.products[k + 1..];
    assert forall j :: 0 <= j < |rest| ==> rest[j] == s.products[if j < k then j else j + 1];
    forall pid | pid in t && t[pid].owner == s.id
      ensures pid in rest
    {
      var j :| 0 <= j < |s.products| && s.products[j] == pid;
      assert j != k;
      assert rest[if j < k then j else j - 1] == pid;
    }
  }

  /** With unique names, the list left by deleteProduct has unique names in the table without the deleted row. */
  lemma DeleteKeepsNamesUnique(table: ProductTable, ids: seq<ProductId>, k: nat)
    requires ListedIn(table, ids) && ProductNamesUnique(table, ids) && Distinct(ids) && k < |ids|
    ensures var rest := ids[..k] + ids[k + 1..];
            ListedIn(table - {ids[k]}, rest) && ProductNamesUnique(table - {ids[k]}, rest)
  {
    var rest := ids[..k] + ids[k + 1..];
    assert forall j :: 0 <= j < |rest| ==> rest[j] == ids[if j < k then j else j + 1];
  }

  /**
   * deleteProduct: delete the row of the entry at position k of seller i's list. The list is the
   * mappedBy side of the seller_id column, so what stays stored is the list without that one entry.
   */
  lemma DeleteProductKeepsInvariants(sellers: seq<Seller>, table: ProductTable, nextSeller: SellerId, nextProduct: ProductId, i: nat, k: nat)
    requires Consistent(sellers, table) && IdsBelow(sellers, table, nextSeller, nextProduct)
    requires i < |sellers| && k < |sellers[i].products|
    ensures var s := sellers[i]; var pid := s.products[k];
            Consistent(sellers[i := s.(products := s.products[..k] + s.products[k + 1..])], table - {pid})
    ensures var s := sellers[i]; var pid := s.products[k];
            IdsBelow(sellers[i := s.(products := s.products[..k] + s.products[k + 1..])], table - {pid}, nextSeller, nextProduct)
    ensures var s := sellers[i]; var pid := s.products[k];
            Unique(sellers, table) ==>
            Unique(sellers[i := s.(products := s.products[..k] + s.products[k + 1..])], table - {pid})
  {
    var s := sellers[i];
    var pid := s.products[k];
    var t := table - {pid};
    var s' := sellers[i := s.(products := s.products[..k] + s.products[k + 1..])];
    DeleteFromOwnList(table, s, k);
    if ProductNamesUnique(table, s.products) {
      DeleteKeepsNamesUnique(table, s.products, k);
    }
    forall m | 0 <= m < |sellers| && m != i
      ensures Owns(t, s'[m]) && ListsAll(t, s'[m])
      ensures ProductNamesUnique(table, sellers[m].products) ==> ProductNamesUnique(t, s'[m].products)
    {
      assert forall j :: 0 <= j < |sellers[m].products| ==> table[sellers[m].products[j]].owner != s.id;
    }
  }

  /** changeProduct: rename the entry at position k of seller i's list to a name the list does not hold. */
  lemma RenameProductKeepsInvariants(sellers: seq<Seller>, table: ProductTable, nextSeller: SellerId, nextProduct: ProductId, i: nat, k: nat, name: string)
    requires Consistent(sellers, table) && IdsBelow(sellers, table, nextSeller, nextProduct)
    requires i < |sellers| && k < |sellers[i].products|
    ensures var pid := sellers[i].products[k];
            Consistent(sellers, table[pid := table[pid].(name := name)])
    ensures var pid := sellers[i].products[k];
            IdsBelow(sellers, table[pid := table[pid].(name := name)], nextSeller, nextProduct)
    ensures var pid := sellers[i].products[k];
            Unique(sellers, table) && IndexOfProduct(table, sellers[i].products, name).None? ==>
            Unique(sellers, table[pid := table[pid].(name := name)])
  {
  }
}
