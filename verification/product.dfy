/** A warehouse product: construction checks and the two guarded stock
    operations. Java `int` overflow of `quantity += qty` is not modelled. */
module Products {

  import opened Wrappers

  const FirstId: int := 1

  datatype Product = Product(id: int, name: string, quantity: int, price: real, reorderLevel: int)

  datatype StockError =
    | NegativeQuantity | NegativePrice | NegativeReorderLevel
    | NonPositiveAmount | InsufficientStock | NotFound

  /** What the constructor guarantees and the stock operations keep. */
  predicate IsSound(p: Product) {
    p.quantity >= 0 && p.price >= 0.0 && p.reorderLevel >= 0
  }

  /** The constructor: quantity, then price, then reorder level must not be
      negative. `nextId` is the static counter, advanced by the caller only
      on success. */
  function NewProduct(nextId: int, name: string, quantity: int, price: real, reorderLevel: int)
    : (r: Result<Product, StockError>)
    ensures quantity < 0 ==> r == Failure(NegativeQuantity)
    ensures quantity >= 0 && price < 0.0 ==> r == Failure(NegativePrice)
    ensures quantity >= 0 && price >= 0.0 && reorderLevel < 0 ==> r == Failure(NegativeReorderLevel)
    ensures r.Success? <==> quantity >= 0 && price >= 0.0 && reorderLevel >= 0
    ensures r.Success? ==> r.value == Product(nextId, name, quantity, price, reorderLevel) && IsSound(r.value)
  {
    if quantity < 0 then Failure(NegativeQuantity)
    else if price < 0.0 then Failure(NegativePrice)
    else if reorderLevel < 0 then Failure(NegativeReorderLevel)
    else Success(Product(nextId, name, quantity, price, reorderLevel))
  }

  /** `addStock`: a positive amount raises the quantity by exactly that
      amount; nothing else of the product changes. */
  function AddStock(p: Product, qty: int): (r: Result<Product, StockError>)
    ensures r.Failure? <==> qty <= 0
    ensures r.Failure? ==> r.error == NonPositiveAmount
    ensures r.Success? ==> r.value == p.(quantity := p.quantity + qty)
    ensures r.Success? && IsSound(p) ==> IsSound(r.value)
  {
    if qty <= 0 then Failure(NonPositiveAmount) else Success(p.(quantity := p.quantity + qty))
  }

  /** `removeStock`: a non-positive amount is refused, then an amount above
      the stock; otherwise the quantity drops by exactly that amount and
      stays non-negative. */
  function RemoveStock(p: Product, qty: int): (r: Result<Product, StockError>)
    ensures qty <= 0 ==> r == Failure(NonPositiveAmount)
    ensures qty > 0 && qty > p.quantity ==> r == Failure(InsufficientStock)
    ensures r.Success? <==> 0 < qty <= p.quantity
    ensures r.Success? ==> r.value == p.(quantity := p.quantity - qty) && r.value.quantity >= 0
    ensures r.Success? && IsSound(p) ==> IsSound(r.value)
  {
    if qty <= 0 then Failure(NonPositiveAmount)
    else if qty > p.quantity then Failure(InsufficientStock)
    else Success(p.(quantity := p.quantity - qty))
  }

  /** `needsReorder`. */
  predicate NeedsReorder(p: Product): (b: bool)
    ensures IsSound(p) && p.quantity == 0 ==> b
  {
    p.quantity <= p.reorderLevel
  }

  /** Taking stock out of a product that needs reordering leaves it needing
      reordering; adding enough to pass the reorder level clears it. */
  lemma StockAndReorder(p: Product, qty: int)
    ensures RemoveStock(p, qty).Success? && NeedsReorder(p) ==> NeedsReorder(RemoveStock(p, qty).value)
    ensures AddStock(p, qty).Success? ==>
              (NeedsReorder(AddStock(p, qty).value) <==> p.quantity + qty <= p.reorderLevel)
  {
  }

  /** Removing what was just added gives the product back unchanged. */
  lemma AddThenRemoveRestores(p: Product, qty: int)
    requires IsSound(p) && AddStock(p, qty).Success?
    ensures RemoveStock(AddStock(p, qty).value, qty) == Success(p)
  {
  }
}
