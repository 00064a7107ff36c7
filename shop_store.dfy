/** The `Shop` collection as the origin policy sees it: a store of shop
    documents that other parts of the application add to, and that the CORS
    middleware reads afresh on every request instead of caching. */
module ShopStore {
  import opened JsValues
  import opened OriginPolicy

  class ShopCollection {
    /** The documents `Shop.find({}, 'shop')` returns, in the store's order. */
    var docs: seq<Shop>

    constructor (initial: seq<Shop>)
      ensures docs == initial
    {
      docs := initial;
    }

    /** Stores one more shop; no origin allowed before is rejected afterwards,
        and the new shop's origin is allowed from the next request on. */
    method AddShop(domain: string)
      modifies this
      ensures docs == old(docs) + [Shop(Text(domain))]
      ensures forall o :: Decide(o, old(docs)) == Allow ==> Decide(o, docs) == Allow
      ensures Decide(Some(Prefix + domain), docs) == Allow
    {
      ghost var before := docs;
      docs := docs + [Shop(Text(domain))];
      forall o | Decide(o, before) == Allow
        ensures Decide(o, docs) == Allow
      {
        AddShopMonotone(o, before, Shop(Text(domain)));
      }
      AddShopMonotone(None, before, Shop(Text(domain)));
    }

    /** One pass of the middleware: read the store, derive the allowed
        origins, and decide on the request's origin. The store is unchanged. */
    method HandleRequest(origin: Option<string>) returns (v: Verdict)
      ensures v == Decide(origin, docs)
    {
      var allowedOrigins := AllowedOrigins(docs);
      v := OriginCallback(origin, allowedOrigins);
    }
  }
}
