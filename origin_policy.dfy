/** The cross-origin allow-list of server.js: the permitted origins are derived
    from the registered shops on every request, and the origin callback handed
    to the CORS middleware accepts a request that declares no origin or one of
    the derived origins, and rejects every other one. */
module OriginPolicy {
  import opened JsValues

  /** A document of the `Shop` collection, restricted to its one schema field. */
  datatype Shop = Shop(shop: StringField)

  /** The scheme every derived origin starts with. */
  const Prefix: string := "https://"

  /** The message of the error the origin callback reports on rejection. */
  const NotAllowedMessage: string := "Nicht erlaubte Domain"

  /** The verdict the origin callback hands back to the CORS middleware:
      `callback(null, true)` or `callback(new Error(message))`. */
  datatype Verdict = Allow | Reject(message: string)

  /** The origin derived from one stored shop: `https://${shop.shop}`. */
  function Origin(s: Shop): (r: string)
    ensures |r| >= |Prefix| && r[..|Prefix|] == Prefix
    ensures r[|Prefix|..] == Interpolate(s.shop)
  {
    Prefix + Interpolate(s.shop)
  }

  /** The shop domain an origin would have been derived from, if it carries
      the prefix at all. */
  ghost function ShopOf(origin: string): (r: Option<string>)
    ensures r.Some? <==> |origin| >= |Prefix| && origin[..|Prefix|] == Prefix
    ensures r.Some? ==> origin == Prefix + r.value
  {
    if |Prefix| <= |origin| && origin[..|Prefix|] == Prefix
    then Some(origin[|Prefix|..])
    else None
  }

  /** `getAllowedOrigins`: one origin per stored shop, in the order the store
      returned them. */
  function AllowedOrigins(shops: seq<Shop>): (r: seq<string>)
    ensures |r| == |shops|
    ensures forall i :: 0 <= i < |shops| ==> r[i] == Prefix + Interpolate(shops[i].shop)
  {
    Map(shops, Origin)
  }

  /** The origin callback, for a list `allowedOrigins` computed beforehand. */
  function OriginCallback(origin: Option<string>, allowedOrigins: seq<string>): (r: Verdict)
    ensures r == Allow <==> IsFalsy(origin) || origin.value in allowedOrigins
    ensures r != Allow ==> r == Reject(NotAllowedMessage)
  {
    if IsFalsy(origin) || Includes(allowedOrigins, origin.value) then Allow
    else Reject(NotAllowedMessage)
  }

  /** The middleware step for one request: derive the list afresh from the
      shops the store holds now, then run the origin callback against it. */
  function Decide(origin: Option<string>, shops: seq<Shop>): (r: Verdict)
    ensures r == Allow <==> IsFalsy(origin) ||
                            exists i :: 0 <= i < |shops| && Origin(shops[i]) == origin.value
    ensures r != Allow ==> r == Reject(NotAllowedMessage)
  {
    OriginCallback(origin, AllowedOrigins(shops))
  }

  /** Stripping the prefix from a derived origin gives back the stored text. */
  lemma StripRoundTrip(s: Shop)
    ensures ShopOf(Origin(s)) == Some(Interpolate(s.shop))
  {
  }

  /** Conversely, an origin with the prefix is the one derived from a shop
      record holding its stripped text, and no other record text yields it. */
  lemma PrefixedOriginIsDerived(origin: string, domain: string)
    requires ShopOf(origin) == Some(domain)
    ensures Origin(Shop(Text(domain))) == origin
    ensures forall d :: Origin(Shop(Text(d))) == origin ==> d == domain
  {
  }

  /** Every derived origin carries the prefix, and the list keeps shape and order. */
  lemma AllowedOriginsShape(shops: seq<Shop>, i: nat)
    requires i < |shops|
    ensures |AllowedOrigins(shops)| == |shops|
    ensures AllowedOrigins(shops)[i][..|Prefix|] == Prefix
    ensures ShopOf(AllowedOrigins(shops)[i]) == Some(Interpolate(shops[i].shop))
  {
  }

  /** Corollary of the contract of `Decide`, for a declared origin: a present origin is allowed exactly
      when it is empty or equals the origin derived from some stored shop, and
      every other origin is rejected with the fixed message. */
  lemma DecideCharacterized(origin: string, shops: seq<Shop>)
    ensures Decide(Some(origin), shops) == Allow <==>
            origin == "" || exists i :: 0 <= i < |shops| && Origin(shops[i]) == origin
    ensures Decide(Some(origin), shops) != Allow ==>
            Decide(Some(origin), shops) == Reject(NotAllowedMessage)
  {
  }

  /** A request without an origin (or with an empty one) is allowed whatever
      the store holds, the empty store included. */
  lemma MissingOriginAllowed(shops: seq<Shop>)
    ensures Decide(None, shops) == Allow
    ensures Decide(Some(""), shops) == Allow
  {
  }

  /** A document without its `shop` field (or with it set to null) still
      contributes an origin, the interpolated `https://undefined` (or
      `https://null`), which is then allowed like any other. */
  lemma FieldlessShopAdmitsLiteralOrigin(shops: seq<Shop>)
    ensures Decide(Some("https://undefined"), shops + [Shop(Undefined)]) == Allow
    ensures Decide(Some("https://null"), shops + [Shop(Null)]) == Allow
  {
    assert Origin(Shop(Undefined)) == "https://undefined";
    assert Origin(Shop(Null)) == "https://null";
    AddShopMonotone(None, shops, Shop(Undefined));
    AddShopMonotone(None, shops, Shop(Null));
  }

  /** The origin of a stored shop is allowed. */
  lemma RegisteredOriginAllowed(shops: seq<Shop>, i: nat)
    requires i < |shops|
    ensures Decide(Some(Origin(shops[i])), shops) == Allow
  {
  }

  /** With no shop stored, every non-empty origin is rejected. */
  lemma EmptyStoreRejects(origin: string)
    requires origin != ""
    ensures Decide(Some(origin), []) == Reject(NotAllowedMessage)
  {
  }

  /** Matching is exact: the plain-http origin of any domain is never allowed. */
  lemma PlainHttpRejected(domain: string, shops: seq<Shop>)
    ensures Decide(Some("http://" + domain), shops) == Reject(NotAllowedMessage)
  {
    var origin := "http://" + domain;
    forall i | 0 <= i < |shops|
      ensures Origin(shops[i]) != origin
    {
      assert Origin(shops[i])[4] == 's' != origin[4];
    }
  }

  /** Matching is exact: a trailing slash makes an origin a different one, so
      it is rejected unless some record holds the domain with that slash. */
  lemma TrailingSlashRejected(domain: string, shops: seq<Shop>)
    requires forall i :: 0 <= i < |shops| ==> shops[i].shop != Text(domain + "/")
    ensures Decide(Some(Prefix + domain + "/"), shops) == Reject(NotAllowedMessage)
  {
    var origin := Prefix + domain + "/";
    forall i | 0 <= i < |shops|
      ensures Origin(shops[i]) != origin
    {
      var text := Interpolate(shops[i].shop);
      StripRoundTrip(shops[i]);
      assert origin == Origin(Shop(Text(domain + "/")));
      StripRoundTrip(Shop(Text(domain + "/")));
      assert text != domain + "/" by {
        if shops[i].shop.Null? || shops[i].shop.Undefined? {
          assert text[|text| - 1] != '/';
        }
      }
    }
  }

  /** Adding a shop never withdraws an allowed origin, and the new shop's own
      origin is allowed on the very next decision. */
  lemma AddShopMonotone(origin: Option<string>, shops: seq<Shop>, added: Shop)
    ensures Decide(origin, shops) == Allow ==> Decide(origin, shops + [added]) == Allow
    ensures Decide(Some(Origin(added)), shops + [added]) == Allow
  {
    var grown := shops + [added];
    if origin.Some? {
      if Decide(origin, shops) == Allow && origin.value != "" {
        var i :| 0 <= i < |shops| && Origin(shops[i]) == origin.value;
        assert grown[i] == shops[i];
      }
    }
    RegisteredOriginAllowed(grown, |shops|);
  }

  /** The verdict depends on the origin and on which shops are stored, not on
      the order or multiplicity in which the store lists them. */
  lemma DecideIgnoresStoreOrder(origin: Option<string>, a: seq<Shop>, b: seq<Shop>)
    requires forall s :: s in a <==> s in b
    ensures Decide(origin, a) == Decide(origin, b)
  {
    if origin.Some? {
      if exists i :: 0 <= i < |a| && Origin(a[i]) == origin.value {
        var i :| 0 <= i < |a| && Origin(a[i]) == origin.value;
        assert a[i] in b;
      }
      if exists i :: 0 <= i < |b| && Origin(b[i]) == origin.value {
        var i :| 0 <= i < |b| && Origin(b[i]) == origin.value;
        assert b[i] in a;
      }
    }
  }
}
