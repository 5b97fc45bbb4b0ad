/** The inventory CLI: the product list, lookup by id, adding products,
    the stock menu items and the low-stock listing. An unknown id prints
    "Not found." and returns; the model reports it as NotFound with the
    inventory untouched. */
module Inventory {

  import opened Wrappers
  import opened Text
  import opened Products
  import Seqs

  /** The product list together with the next value of `Product.NEXT_ID`. */
  datatype Inventory = Inventory(products: seq<Product>, nextId: int)

  const Empty: Inventory := Inventory([], FirstId)

  ghost predicate IdsConsecutive(ps: seq<Product>) {
    forall i :: 0 <= i < |ps| ==> ps[i].id == FirstId + i
  }

  /** Every inventory the CLI can reach: consecutive ids from 1, the counter
      just past them, and no negative quantity, price or reorder level. */
  ghost predicate Valid(inv: Inventory) {
    && inv.nextId == FirstId + |inv.products|
    && IdsConsecutive(inv.products)
    && (forall i :: 0 <= i < |inv.products| ==> IsSound(inv.products[i]))
  }

  /** `findProduct`: the position of the first product with that id. */
  function FindProduct(ps: seq<Product>, id: int): (r: Option<nat>)
    ensures r.Some? ==> r.value < |ps| && ps[r.value].id == id
    ensures r.Some? ==> forall j :: 0 <= j < r.value ==> ps[j].id != id
    ensures r.None? <==> forall j :: 0 <= j < |ps| ==> ps[j].id != id
  {
    Seqs.FirstIndex(ps, (p: Product) => p.id == id)
  }

  lemma FindProductValid(ps: seq<Product>, id: int)
    requires IdsConsecutive(ps)
    ensures FirstId <= id < FirstId + |ps| ==> FindProduct(ps, id) == Some(id - FirstId)
    ensures !(FirstId <= id < FirstId + |ps|) ==> FindProduct(ps, id).None?
  {
    var r := FindProduct(ps, id);
    if FirstId <= id < FirstId + |ps| {
      assert ps[id - FirstId].id == id;
      assert ps[r.value].id == FirstId + r.value;
    }
  }

  /** `addProduct`: the trimmed name and the three numbers go to the
      constructor; exactly one product is appended when it succeeds. */
  function AddProduct(inv: Inventory, nameLine: string, qty: int, price: real, reorder: int)
    : (r: Result<Inventory, StockError>)
    ensures r.Success? <==> NewProduct(inv.nextId, Trim(nameLine), qty, price, reorder).Success?
    ensures r.Failure? ==> r.error == NewProduct(inv.nextId, Trim(nameLine), qty, price, reorder).error
    ensures r.Success? ==>
              && r.value.products == inv.products + [Product(inv.nextId, Trim(nameLine), qty, price, reorder)]
              && r.value.nextId == inv.nextId + 1
  {
    match NewProduct(inv.nextId, Trim(nameLine), qty, price, reorder)
    case Failure(e) => Failure(e)
    case Success(p) => Success(Inventory(inv.products + [p], inv.nextId + 1))
  }

  /** The `addStock` menu item: an unknown id is reported before any amount
      is read; otherwise `Product.addStock` is applied to the found product
      and no other product changes. */
  function AddStockById(inv: Inventory, id: int, qty: int): (r: Result<Inventory, StockError>)
    ensures r == Failure(NotFound) <==> FindProduct(inv.products, id).None?
    ensures FindProduct(inv.products, id).Some? ==>
              var i := FindProduct(inv.products, id).value;
              match AddStock(inv.products[i], qty)
              case Failure(e) => r == Failure(e)
              case Success(p) => r == Success(inv.(products := inv.products[i := p]))
  {
    match FindProduct(inv.products, id)
    case None => Failure(NotFound)
    case Some(i) =>
      match AddStock(inv.products[i], qty)
      case Failure(e) => Failure(e)
      case Success(p) => Success(inv.(products := inv.products[i := p]))
  }

  /** The `removeStock` menu item, likewise with `Product.removeStock`. */
  function RemoveStockById(inv: Inventory, id: int, qty: int): (r: Result<Inventory, StockError>)
    ensures r == Failure(NotFound) <==> FindProduct(inv.products, id).None?
    ensures FindProduct(inv.products, id).Some? ==>
              var i := FindProduct(inv.products, id).value;
              match RemoveStock(inv.products[i], qty)
              case Failure(e) => r == Failure(e)
              case Success(p) => r == Success(inv.(products := inv.products[i := p]))
  {
    match FindProduct(inv.products, id)
    case None => Failure(NotFound)
    case Some(i) =>
      match RemoveStock(inv.products[i], qty)
      case Failure(e) => Failure(e)
      case Success(p) => Success(inv.(products := inv.products[i := p]))
  }

  /** `showLowStock`: the products needing reorder, in insertion order. */
  function LowStock(ps: seq<Product>): (r: seq<Product>)
    ensures Seqs.Selects(r, ps, NeedsReorder)
  {
    Seqs.Filter(ps, NeedsReorder)
  }

  /** Replacing one product by a sound one with the same id keeps the
      inventory valid. */
  lemma ReplaceValid(inv: Inventory, i: nat, p: Product)
    requires Valid(inv) && i < |inv.products|
    requires p.id == inv.products[i].id && IsSound(p)
    ensures Valid(inv.(products := inv.products[i := p]))
  {
  }

  /** Every menu operation that succeeds keeps the inventory valid: ids stay
      consecutive and no quantity ever becomes negative. */
  lemma OperationsKeepValid(inv: Inventory, nameLine: string, id: int, qty: int, price: real, reorder: int)
    requires Valid(inv)
    ensures AddProduct(inv, nameLine, qty, price, reorder).Success? ==>
              Valid(AddProduct(inv, nameLine, qty, price, reorder).value)
    ensures AddStockById(inv, id, qty).Success? ==> Valid(AddStockById(inv, id, qty).value)
    ensures RemoveStockById(inv, id, qty).Success? ==> Valid(RemoveStockById(inv, id, qty).value)
  {
    var r := AddProduct(inv, nameLine, qty, price, reorder);
    if r.Success? {
      var ps := r.value.products;
      forall k | 0 <= k < |ps| ensures ps[k].id == FirstId + k && IsSound(ps[k]) {
        if k < |inv.products| {
          assert ps[k] == inv.products[k];
        }
      }
    }
    match FindProduct(inv.products, id)
    case None =>
    case Some(i) =>
      if AddStockById(inv, id, qty).Success? {
        ReplaceValid(inv, i, AddStock(inv.products[i], qty).value);
      }
      if RemoveStockById(inv, id, qty).Success? {
        ReplaceValid(inv, i, RemoveStock(inv.products[i], qty).value);
      }
  }
}
