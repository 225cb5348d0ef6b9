/**
 * SellerService over an in-memory store that stands for the two JPA repositories.
 * Every method checks first and changes the store only when all its checks pass.
 */
module SellerService {
  import opened Errors
  import opened JavaString
  import opened Market
  import ProductService

  class Store {
    /** The seller table with each seller's product list, in storage order. */
    var sellers: seq<Seller>
    /** The product table, keyed by product id. */
    var products: ProductTable
    /** The ids the database assigns to the next seller and the next product it saves. */
    var nextSellerId: SellerId
    var nextProductId: ProductId

    /** The structure the JPA mapping keeps, and ids that were never handed out before. */
    ghost predicate Valid()
      reads this
    {
      Consistent(sellers, products) && IdsBelow(sellers, products, nextSellerId, nextProductId)
    }

    /** Seller names are unique, and product names are unique within each seller's list. */
    ghost predicate NamesUnique()
      reads this
    {
      Unique(sellers, products)
    }

    /** An empty store; generated identities start at 1. */
    constructor ()
      ensures Valid() && NamesUnique()
      ensures sellers == [] && products == map[] && nextSellerId == 1 && nextProductId == 1
    {
      sellers, products := [], map[];
      nextSellerId, nextProductId := 1, 1;
    }

    /** getAllSellers: every stored seller, in storage order. */
    function AllSellers(): (r: seq<Seller>)
      reads this
      ensures r == sellers
    {
      sellers
    }

    /** findSeller: the first seller with this name, or SellerNotFound naming it. */
    function FindSeller(name: string): (r: Result<nat>)
      reads this
      ensures r.Success? ==> r.value < |sellers| && sellers[r.value].name == name
      ensures r.Success? ==> forall i :: 0 <= i < r.value ==> sellers[i].name != name
      ensures r.Failure? <==> !SellerExists(sellers, name)
      ensures r.Failure? ==> r.error == SellerNotFound(name)
    {
      match IndexOfSeller(sellers, name)
      case None => Failure(SellerNotFound(name))
      case Some(i) => Success(i)
    }

    /** getAllProducts: the product list of the seller with this name, in list order. */
    function AllProducts(name: string): (r: Result<seq<Product>>)
      requires Valid()
      reads this
      ensures r.Failure? <==> !SellerExists(sellers, name)
      ensures r.Failure? ==> r.error == SellerNotFound(name)
      ensures r.Success? ==>
                var s := sellers[FindSeller(name).value];
                s.name == name && |r.value| == |s.products| &&
                forall j :: 0 <= j < |r.value| ==>
                  r.value[j] == products[s.products[j]] && r.value[j].id == s.products[j] && r.value[j].owner == s.id
    {
      match FindSeller(name)
      case Failure(e) => Failure(e)
      case Success(i) => assert Owns(products, sellers[i]); Success(ProductsOf(products, sellers[i].products))
    }

    /** createSeller: InvalidArgument for a blank name, then Conflict for a taken one, else one new seller at the end. */
    method CreateSeller(name: string) returns (r: Outcome)
      requires Valid()
      modifies this
      ensures Valid()
      ensures r == if IsBlank(name) then Fail(SellerEmpty)
                   else if old(SellerExists(sellers, name)) then Fail(SellerTaken(name))
                   else Pass
      ensures r.Fail? ==> unchanged(this)
      ensures r.Pass? ==> sellers == old(sellers) + [Seller(old(nextSellerId), name, [])]
                          && products == old(products)
                          && nextSellerId == old(nextSellerId) + 1 && nextProductId == old(nextProductId)
      ensures old(NamesUnique()) ==> NamesUnique()
    {
      if IsBlank(name) {
        return Fail(SellerEmpty);
      }
      if SellerExists(sellers, name) {
        return Fail(SellerTaken(name));
      }
      AddSellerKeepsInvariants(sellers, products, nextSellerId, nextProductId, name);
      sellers := sellers + [Seller(nextSellerId, name, [])];
      nextSellerId := nextSellerId + 1;
      r := Pass;
    }

    /** deleteSeller: NotFound for a missing name, else that one seller leaves; its product rows stay. */
    method DeleteSeller(name: string) returns (r: Outcome)
      requires Valid()
      modifies this
      ensures Valid()
      ensures r == if old(SellerExists(sellers, name)) then Pass else Fail(SellerNotFound(name))
      ensures r.Fail? ==> unchanged(this)
      ensures r.Pass? ==> var i := old(FindSeller(name)).value;
                          sellers == old(sellers[..i] + sellers[i + 1..])
                          && products == old(products)
                          && nextSellerId == old(nextSellerId) && nextProductId == old(nextProductId)
      ensures old(NamesUnique()) ==> NamesUnique()
      ensures r.Pass? && old(NamesUnique()) ==> !SellerExists(sellers, name)
    {
      var found := FindSeller(name);
      if found.Failure? {
        return Fail(found.error);
      }
      var i := found.value;
      RemoveSellerKeepsInvariants(sellers, products, nextSellerId, nextProductId, i);
      sellers := sellers[..i] + sellers[i + 1..];
      r := Pass;
    }

    /**
     * changeSellerName: NotFound for a missing old name, then InvalidArgument for a blank new name,
     * then Conflict for a new name any seller holds (the renamed seller included), else that seller is renamed.
     */
    method ChangeSellerName(oldName: string, newName: string) returns (r: Outcome)
      requires Valid()
      modifies this
      ensures Valid()
      ensures r == if !old(SellerExists(sellers, oldName)) then Fail(SellerNotFound(oldName))
                   else if IsBlank(newName) then Fail(SellerEmpty)
                   else if old(SellerExists(sellers, newName)) then Fail(SellerTaken(newName))
                   else Pass
      ensures r.Fail? ==> unchanged(this)
      ensures r.Pass? ==> var i := old(FindSeller(oldName)).value;
                          sellers == old(sellers)[i := Seller(old(sellers[i].id), newName, old(sellers[i].products))]
                          && products == old(products)
                          && nextSellerId == old(nextSellerId) && nextProductId == old(nextProductId)
      ensures old(NamesUnique()) ==> NamesUnique()
    {
      var found := FindSeller(oldName);
      if found.Failure? {
        return Fail(found.error);
      }
      if IsBlank(newName) {
        return Fail(SellerEmpty);
      }
      if SellerExists(sellers, newName) {
        return Fail(SellerTaken(newName));
      }
      var i := found.value;
      RenameSellerKeepsInvariants(sellers, products, nextSellerId, nextProductId, i, newName);
      sellers := sellers[i := sellers[i].(name := newName)];
      r := Pass;
    }

    /**
     * addProductToSeller: NotFound for a missing seller, then InvalidArgument for a blank product name,
     * then Conflict when the seller already lists that name, else a new product row appended to its list.
     */
    method AddProductToSeller(product: string, seller: string) returns (r: Outcome)
      requires Valid()
      modifies this
      ensures Valid()
      ensures r == if !old(SellerExists(sellers, seller)) then Fail(SellerNotFound(seller))
                   else if IsBlank(product) then Fail(ProductEmpty)
                   else if old(IndexOfProduct(products, sellers[FindSeller(seller).value].products, product)).Some?
                   then Fail(ProductTaken(product))
                   else Pass
      ensures r.Fail? ==> unchanged(this)
      ensures r.Pass? ==> var i := old(FindSeller(seller)).value; var s := old(sellers[i]); var pid := old(nextProductId);
                          sellers == old(sellers)[i := Seller(s.id, s.name, s.products + [pid])]
                          && products == old(products)[pid := Product(pid, product, s.id)]
                          && nextSellerId == old(nextSellerId) && nextProductId == pid + 1
      ensures old(NamesUnique()) ==> NamesUnique()
    {
      var found := FindSeller(seller);
      if found.Failure? {
        return Fail(found.error);
      }
      if IsBlank(product) {
        return Fail(ProductEmpty);
      }
      var i := found.value;
      var s := sellers[i];
      assert Owns(products, s);
      if IndexOfProduct(products, s.products, product).Some? {
        return Fail(ProductTaken(product));
      }
      var pid := nextProductId;
      AddProductKeepsInvariants(sellers, products, nextSellerId, pid, i, product);
      products := products[pid := Product(pid, product, s.id)];
      sellers := sellers[i := s.(products := s.products + [pid])];
      nextProductId := nextProductId + 1;
      r := Pass;
    }

    /**
     * deleteProduct: NotFound for a missing seller, then NotFound for a name the seller does not list,
     * else the row of the first product of that name is deleted. removeIf drops every entry of the name
     * from the loaded list, but the stored list is the rows whose seller_id is this seller, so only the
     * deleted row's entry leaves it; when the seller's names are unique the two are the same.
     */
    method DeleteProduct(productDelete: string, seller: string) returns (r: Outcome)
      requires Valid()
      modifies this
      ensures Valid()
      ensures r == if !old(SellerExists(sellers, seller)) then Fail(SellerNotFound(seller))
                   else if old(IndexOfProduct(products, sellers[FindSeller(seller).value].products, productDelete)).None?
                   then Fail(ProductNotFound(productDelete))
                   else Pass
      ensures r.Fail? ==> unchanged(this)
      ensures r.Pass? ==> var i := old(FindSeller(seller)).value; var s := old(sellers[i]);
                          var k := old(IndexOfProduct(products, s.products, productDelete)).value;
                          sellers == old(sellers)[i := s.(products := s.products[..k] + s.products[k + 1..])]
                          && products == old(products) - {s.products[k]}
                          && nextSellerId == old(nextSellerId) && nextProductId == old(nextProductId)
      ensures r.Pass? && old(NamesUnique()) ==>
                          var i := old(FindSeller(seller)).value; var s := old(sellers[i]);
                          sellers[i].products == RemoveNamed(old(products), s.products, productDelete)
      ensures old(NamesUnique()) ==> NamesUnique()
    {
      var found := FindSeller(seller);
      if found.Failure? {
        return Fail(found.error);
      }
      var i := found.value;
      var s := sellers[i];
      assert Owns(products, s);
      var index := IndexOfProduct(products, s.products, productDelete);
      if index.None? {
        return Fail(ProductNotFound(productDelete));
      }
      var k := index.value;
      var pid := s.products[k];
      DeleteProductKeepsInvariants(sellers, products, nextSellerId, nextProductId, i, k);
      if NamesUnique() {
        RemoveUniqueName(products, s.products, k);
      }
      sellers := sellers[i := s.(products := s.products[..k] + s.products[k + 1..])];
      products := products - {pid};
      r := Pass;
    }

    /**
     * changeProduct: NotFound for a missing seller, then InvalidArgument for a blank new name, then NotFound
     * for an old name the seller does not list, then Conflict for a new name it lists (the old name included),
     * else the first product of the old name is renamed; no product changes owner.
     */
    method ChangeProduct(oldName: string, newName: string, seller: string) returns (r: Outcome)
      requires Valid()
      modifies this
      ensures Valid()
      ensures r == if !old(SellerExists(sellers, seller)) then Fail(SellerNotFound(seller))
                   else if IsBlank(newName) then Fail(ProductEmpty)
                   else if old(IndexOfProduct(products, sellers[FindSeller(seller).value].products, oldName)).None?
                   then Fail(ProductNotFound(oldName))
                   else if old(IndexOfProduct(products, sellers[FindSeller(seller).value].products, newName)).Some?
                   then Fail(ProductTaken(newName))
                   else Pass
      ensures r.Fail? ==> unchanged(this)
      ensures r.Pass? ==> var s := old(sellers[FindSeller(seller).value]);
                          var pid := s.products[old(IndexOfProduct(products, s.products, oldName)).value];
                          products == old(products)[pid := old(products)[pid].(name := newName)]
                          && sellers == old(sellers)
                          && nextSellerId == old(nextSellerId) && nextProductId == old(nextProductId)
      ensures forall productId :: ProductService.GetSellerByProductId(products, productId)
                                  == ProductService.GetSellerByProductId(old(products), productId)
      ensures old(NamesUnique()) ==> NamesUnique()
    {
      var found := FindSeller(seller);
      if found.Failure? {
        return Fail(found.error);
      }
      if IsBlank(newName) {
        return Fail(ProductEmpty);
      }
      var i := found.value;
      var s := sellers[i];
      assert Owns(products, s);
      var oldIndex := IndexOfProduct(products, s.products, oldName);
      if oldIndex.None? {
        return Fail(ProductNotFound(oldName));
      }
      if IndexOfProduct(products, s.products, newName).Some? {
        return Fail(ProductTaken(newName));
      }
      var pid := s.products[oldIndex.value];
      RenameProductKeepsInvariants(sellers, products, nextSellerId, nextProductId, i, oldIndex.value, newName);
      forall productId
        ensures ProductService.GetSellerByProductId(products[pid := products[pid].(name := newName)], productId)
                == ProductService.GetSellerByProductId(products, productId)
      {
        ProductService.LookupIgnoresRename(products, pid, newName, productId);
      }
      products := products[pid := products[pid].(name := newName)];
      r := Pass;
    }
  }
}
