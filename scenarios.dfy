/**
 * Seller tests of the service, replayed against the contracts of the store: each method starts
 * from an empty store, makes the calls of one test, and promises what the service code does.
 */
module Scenarios {
  import opened Errors
  import opened Market
  import opened SellerService
  import JavaString

  /** createSeller succeeds once, then conflicts on the same name. */
  method CreateSellerTwice() returns (made: Outcome, again: Outcome)
    ensures made == Pass
    ensures again == Fail(SellerTaken("acme")) && again.error.Kind() == Conflict
  {
    var store := new Store();
    made := store.CreateSeller("acme");
    assert store.sellers == [Seller(1, "acme", [])];
    assert store.sellers[0].name == "acme";
    again := store.CreateSeller("acme");
  }

  /** createSeller rejects a name of spaces and the empty name. */
  method CreateBlankSeller() returns (spaces: Outcome, empty: Outcome)
    ensures spaces == Fail(SellerEmpty) && spaces.error.Kind() == InvalidArgument
    ensures empty == Fail(SellerEmpty)
  {
    var store := new Store();
    assert "  "[1..] == " " && " "[1..] == "";
    assert JavaString.TrimStart("  ") == JavaString.TrimStart("") == "";
    spaces := store.CreateSeller("  ");
    empty := store.CreateSeller("");
  }

  /** changeSellerName of a seller nobody has is NotFound. */
  method ChangeMissingSeller() returns (missing: Outcome)
    ensures missing == Fail(SellerNotFound("ghost")) && missing.error.Kind() == NotFound
  {
    var store := new Store();
    missing := store.ChangeSellerName("ghost", "x");
  }

  /**
   * changeSellerName to the seller's own current name is a Conflict: the existence check finds the
   * seller itself. The service test of this case expects an IllegalArgumentException instead.
   */
  method ChangeSellerToOwnName() returns (self: Outcome)
    ensures self == Fail(SellerTaken("acme")) && self.error.Kind() == Conflict
  {
    var store := new Store();
    var _ := store.CreateSeller("acme");
    assert store.sellers == [Seller(1, "acme", [])];
    assert store.sellers[0].name == "acme";
    self := store.ChangeSellerName("acme", "acme");
  }

  /** deleteSeller succeeds, after which getAllProducts, as for any missing seller, is NotFound. */
  method DeleteThenListProducts() returns (deleted: Outcome, listed: Result<seq<Product>>)
    ensures deleted == Pass
    ensures listed == Failure(SellerNotFound("acme")) && listed.error.Kind() == NotFound
  {
    var store := new Store();
    var _ := store.CreateSeller("acme");
    assert store.sellers == [Seller(1, "acme", [])];
    assert store.sellers[0].name == "acme";
    deleted := store.DeleteSeller("acme");
    listed := store.AllProducts("acme");
  }
}
