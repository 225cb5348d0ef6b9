/** ProductService: the reverse lookup from a product id to the seller that owns it. */
module ProductService {
  import opened Errors
  import opened Market

  /** getSellerByProductId: the owner of the product row stored under this id, or NotFound naming the id. */
  function GetSellerByProductId(table: ProductTable, productId: int): (r: Result<SellerId>)
    ensures r.Success? <==> productId in table
    ensures r.Success? ==> r.value == table[productId].owner
    ensures r.Failure? ==> r.error == ProductIdNotFound(productId) && r.error.Kind() == NotFound
  {
    if productId in table then Success(table[productId].owner)
    else Failure(ProductIdNotFound(productId))
  }

  /** The lookup inverts the sellers' product lists: every listed product leads back to the seller listing it. */
  lemma LookupFindsListingSeller(sellers: seq<Seller>, table: ProductTable, i: nat, j: nat)
    requires Consistent(sellers, table)
    requires i < |sellers| && j < |sellers[i].products|
    ensures GetSellerByProductId(table, sellers[i].products[j]) == Success(sellers[i].id)
  {
  }

  /** Both ways: in a consistent store an id looks up to a stored seller exactly when that seller lists it. */
  lemma LookupIffListed(sellers: seq<Seller>, table: ProductTable, i: nat, productId: int)
    requires Consistent(sellers, table) && i < |sellers|
    ensures GetSellerByProductId(table, productId) == Success(sellers[i].id) <==> productId in sellers[i].products
  {
  }

  /** Renaming a product row leaves the answer of the lookup unchanged for every id. */
  lemma LookupIgnoresRename(table: ProductTable, pid: ProductId, name: string, productId: int)
    requires pid in table
    ensures GetSellerByProductId(table[pid := table[pid].(name := name)], productId) == GetSellerByProductId(table, productId)
  {
  }

  /** After its row is deleted, a product id is no longer found; every other id answers as before. */
  lemma LookupAfterDelete(table: ProductTable, pid: ProductId, productId: int)
    ensures GetSellerByProductId(table - {pid}, pid) == Failure(ProductIdNotFound(pid))
    ensures productId != pid ==> GetSellerByProductId(table - {pid}, productId) == GetSellerByProductId(table, productId)
  {
  }
}
