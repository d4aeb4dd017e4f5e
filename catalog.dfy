/** The product table: lookup by id, the admin's delete and edit, and the
    storefront search. */
module Catalog {
  import opened Rows
  import opened Text

  /** Ids strictly increase along the table, so no two rows share one. */
  predicate IdsIncrease(products: seq<Product>)
  {
    forall i, j :: 0 <= i < j < |products| ==> products[i].id < products[j].id
  }

  /** Every id is positive and below the next id the table hands out. */
  predicate CatalogValid(products: seq<Product>, nextId: nat)
  {
    && 1 <= nextId
    && (forall i :: 0 <= i < |products| ==> 1 <= products[i].id < nextId)
    && IdsIncrease(products)
  }

  /** Position of the first row with id `pid`. */
  function ProductIndex(products: seq<Product>, pid: nat): (r: Option<nat>)
    ensures r.Some? ==> r.value < |products| && products[r.value].id == pid
    ensures r.Some? ==> forall i :: 0 <= i < r.value ==> products[i].id != pid
    ensures r.None? <==> forall i :: 0 <= i < |products| ==> products[i].id != pid
  {
    if products == [] then None
    else if products[0].id == pid then Some(0)
    else match ProductIndex(products[1..], pid)
      case None => None
      case Some(i) => Some(i + 1)
  }

  /** `Product.query.get(pid)`: the row with that id, or None. */
  function FindProduct(products: seq<Product>, pid: nat): (r: Option<Product>)
    ensures r.Some? ==> r.value in products && r.value.id == pid
    ensures r.None? <==> forall i :: 0 <= i < |products| ==> products[i].id != pid
  {
    match ProductIndex(products, pid)
    case Some(i) => Some(products[i])
    case None => None
  }

  /** With unique ids, the lookup finds exactly the row that has the id. */
  lemma FindByMember(products: seq<Product>, p: Product)
    requires IdsIncrease(products)
    requires p in products
    ensures FindProduct(products, p.id) == Some(p)
  {
    var j :| 0 <= j < |products| && products[j] == p;
    var i := ProductIndex(products, p.id).value;
    assert products[i].id == products[j].id;
    assert i == j;
  }

  /** Two tables with unique ids that hold the same rows with id `q` answer
      the lookup of `q` alike. */
  lemma SameRowsSameLookup(a: seq<Product>, b: seq<Product>, q: nat)
    requires IdsIncrease(a) && IdsIncrease(b)
    requires forall p :: p in a && p.id == q <==> p in b && p.id == q
    ensures FindProduct(a, q) == FindProduct(b, q)
  {
    if exists p :: p in a && p.id == q {
      var p :| p in a && p.id == q;
      FindByMember(a, p);
      FindByMember(b, p);
    } else {
      assert forall k :: 0 <= k < |b| ==> b[k].id != q by {
        forall k | 0 <= k < |b| ensures b[k].id != q {
          assert b[k] in b;
        }
      }
    }
  }

  /** Cutting row `i` out of a table with unique ids leaves exactly the rows
      with another id. */
  lemma RemoveAtMembers(products: seq<Product>, nextId: nat, i: nat)
    requires CatalogValid(products, nextId)
    requires i < |products|
    ensures CatalogValid(products[..i] + products[i + 1..], nextId)
    ensures forall p :: p in products[..i] + products[i + 1..] <==> p in products && p.id != products[i].id
  {
    RemoveAtKeepsCatalog(products, nextId, i);
    RemoveAtKeepsOtherIds(products, nextId, i);
  }

  lemma RemoveAtKeepsCatalog(products: seq<Product>, nextId: nat, i: nat)
    requires CatalogValid(products, nextId)
    requires i < |products|
    ensures CatalogValid(products[..i] + products[i + 1..], nextId)
  {
    var rest := products[..i] + products[i + 1..];
    assert forall k :: 0 <= k < |rest| ==> rest[k] == if k < i then products[k] else products[k + 1];
    forall a, b | 0 <= a < b < |rest| ensures rest[a].id < rest[b].id {
      var a', b' := if a < i then a else a + 1, if b < i then b else b + 1;
      assert rest[a] == products[a'] && rest[b] == products[b'] && a' < b';
    }
  }

  lemma RemoveAtKeepsOtherIds(products: seq<Product>, nextId: nat, i: nat)
    requires CatalogValid(products, nextId)
    requires i < |products|
    ensures forall p :: p in products[..i] + products[i + 1..] <==> p in products && p.id != products[i].id
  {
    var rest := products[..i] + products[i + 1..];
    assert forall k :: 0 <= k < |rest| ==> rest[k] == if k < i then products[k] else products[k + 1];
    forall p ensures p in rest <==> p in products && p.id != products[i].id {
      if p in products && p.id != products[i].id {
        var j :| 0 <= j < |products| && products[j] == p;
        if j < i { assert rest[j] == p; } else { assert rest[j - 1] == p; }
      }
      if p in rest {
        var k :| 0 <= k < |rest| && rest[k] == p;
        if k < i {
          assert products[k].id < products[i].id;
        } else {
          assert products[i].id < products[k + 1].id;
        }
      }
    }
  }


  /** A row under the next id can go at the end of a valid table, which it
      then stays valid for the id after; the lookup of the new id finds it. */
  lemma AppendProductEffect(products: seq<Product>, nextId: nat, p: Product)
    requires CatalogValid(products, nextId)
    requires p.id == nextId
    ensures CatalogValid(products + [p], nextId + 1)
    ensures FindProduct(products + [p], nextId) == Some(p)
    ensures forall q :: q != nextId ==> FindProduct(products + [p], q) == FindProduct(products, q)
  {
    var after := products + [p];
    assert forall k :: 0 <= k < |products| ==> after[k] == products[k];
    assert after[|products|] == p;
    FindByMember(after, p);
    forall q | q != nextId ensures FindProduct(after, q) == FindProduct(products, q) {
      SameRowsSameLookup(after, products, q);
    }
  }

  /** The table after `delete_product(pid)`. */
  function WithoutProduct(products: seq<Product>, pid: nat): (r: seq<Product>)
    ensures |r| == if ProductIndex(products, pid).Some? then |products| - 1 else |products|
    ensures forall p :: p in r ==> p in products
    ensures forall p :: p in products && p.id != pid ==> p in r
  {
    match ProductIndex(products, pid)
    case Some(i) =>
      var r := products[..i] + products[i + 1..];
      assert forall j :: 0 <= j < i ==> r[j] == products[j];
      assert forall j :: i < j < |products| ==> r[j - 1] == products[j];
      r
    case None => products
  }

  /** Deleting drops exactly the row with that id (a no-op when there is none);
      every other lookup answers as before. */
  lemma DeleteProductEffect(products: seq<Product>, nextId: nat, pid: nat)
    requires CatalogValid(products, nextId)
    ensures CatalogValid(WithoutProduct(products, pid), nextId)
    ensures forall p :: p in WithoutProduct(products, pid) <==> p in products && p.id != pid
    ensures FindProduct(WithoutProduct(products, pid), pid) == None
    ensures forall q :: q != pid ==> FindProduct(WithoutProduct(products, pid), q) == FindProduct(products, q)
    ensures FindProduct(products, pid) == None ==> WithoutProduct(products, pid) == products
  {
    var rest := WithoutProduct(products, pid);
    match ProductIndex(products, pid)
    case None =>
    case Some(i) =>
      RemoveAtMembers(products, nextId, i);
      forall q | q != pid ensures FindProduct(rest, q) == FindProduct(products, q) {
        SameRowsSameLookup(rest, products, q);
      }
      forall k | 0 <= k < |rest| ensures rest[k].id != pid {
        assert rest[k] in rest;
      }
  }

  /** The row `edit_product` writes: name, price and description overwritten,
      the image locator replaced only when a new file came with the form. */
  function Edited(p: Product, name: string, price: nat, description: Option<string>, image: Option<string>): (r: Product)
    ensures r.id == p.id
    ensures r.name == name && r.price == price && r.description == description
    ensures image.None? ==> r.imageUrl == p.imageUrl
    ensures image.Some? ==> r.imageUrl == ImagePrefix + image.value
  {
    Product(p.id, name, description, price, if image.Some? then ImagePrefix + image.value else p.imageUrl)
  }

  /** Overwriting a row in place keeps the table valid, the edited row is what
      its id now finds, and every other id finds what it found before. */
  lemma EditProductEffect(products: seq<Product>, nextId: nat, i: nat, name: string, price: nat,
                          description: Option<string>, image: Option<string>)
    requires CatalogValid(products, nextId)
    requires i < |products|
    ensures var e := Edited(products[i], name, price, description, image);
      && CatalogValid(products[i := e], nextId)
      && FindProduct(products[i := e], products[i].id) == Some(e)
      && forall q :: q != products[i].id ==> FindProduct(products[i := e], q) == FindProduct(products, q)
  {
    var e := Edited(products[i], name, price, description, image);
    var after := products[i := e];
    assert after[i] == e;
    FindByMember(after, e);
    forall q | q != products[i].id ensures FindProduct(after, q) == FindProduct(products, q) {
      forall p ensures p in after && p.id == q <==> p in products && p.id == q {
        if p in products && p.id == q {
          var j :| 0 <= j < |products| && products[j] == p;
          assert after[j] == p;
        }
        if p in after && p.id == q {
          var j :| 0 <= j < |after| && after[j] == p;
          assert products[j] == p;
        }
      }
      SameRowsSameLookup(after, products, q);
    }
  }

  /** The rows that `keep` accepts, in table order. */
  function Where(products: seq<Product>, keep: Product -> bool): (r: seq<Product>)
    ensures |r| <= |products|
    ensures forall p :: p in r <==> p in products && keep(p)
  {
    if products == [] then []
    else
      var last := products[|products| - 1];
      assert products == products[..|products| - 1] + [last];
      Where(products[..|products| - 1], keep) + (if keep(last) then [last] else [])
  }

  lemma {:induction false} WhereCongruent(products: seq<Product>, f: Product -> bool, g: Product -> bool)
    requires forall p :: p in products ==> f(p) == g(p)
    ensures Where(products, f) == Where(products, g)
  {
    if products != [] {
      WhereCongruent(products[..|products| - 1], f, g);
    }
  }

  /** A product matches an already stripped query when the query occurs,
      ignoring ASCII case, in its name or in its description (a missing
      description matches nothing). */
  predicate Hit(p: Product, q: string)
  {
    var needle := Lower(q);
    || Contains(Lower(p.name), needle)
    || (p.description.Some? && Contains(Lower(p.description.value), needle))
  }

  /** The match the source performs: `ilike '%q%'` on name or description,
      which reads any '%' or '_' inside the query as a wildcard. Wildcards
      only widen the match, so every substring hit is also a hit here. */
  predicate HitAsWritten(p: Product, q: string)
    ensures Hit(p, q) ==> HitAsWritten(p, q)
  {
    var pattern := "%" + Lower(q) + "%";
    LikeFindsSubstring(Lower(p.name), Lower(q));
    || Like(Lower(p.name), pattern)
    || (p.description.Some? &&
        (LikeFindsSubstring(Lower(p.description.value), Lower(q));
         Like(Lower(p.description.value), pattern)))
  }

  /** `/search?q=`: a blank query finds nothing; otherwise exactly the products
      that match the stripped query, in table order. */
  function Search(products: seq<Product>, query: string): (r: seq<Product>)
    ensures Strip(query) == [] ==> r == []
    ensures forall p :: p in r <==> p in products && Strip(query) != [] && Hit(p, Strip(query))
  {
    var q := Strip(query);
    if q == [] then [] else Where(products, p => Hit(p, q))
  }

  /** The search as written, with LIKE wildcards. */
  function SearchAsWritten(products: seq<Product>, query: string): (r: seq<Product>)
    ensures Strip(query) == [] ==> r == []
    ensures forall p :: p in r <==> p in products && Strip(query) != [] && HitAsWritten(p, Strip(query))
  {
    var q := Strip(query);
    if q == [] then [] else Where(products, p => HitAsWritten(p, q))
  }

  /** As long as the query holds no '%' or '_', the source's search is the
      case-insensitive substring search. */
  lemma SearchAgreesOnLiteralQueries(products: seq<Product>, query: string)
    requires Literal(Strip(query))
    ensures SearchAsWritten(products, query) == Search(products, query)
  {
    var q := Strip(query);
    if q != [] {
      LowerKeepsLiteral(q);
      forall p | p in products ensures HitAsWritten(p, q) == Hit(p, q) {
        LikeInfix(Lower(p.name), Lower(q));
        if p.description.Some? {
          LikeInfix(Lower(p.description.value), Lower(q));
        }
      }
      WhereCongruent(products, p => HitAsWritten(p, q), p => Hit(p, q));
    }
  }

  /** The query "_" (whitespace around it aside) lists, as written, every
      product with a non-empty name, even one whose name and description hold
      no '_'; the substring search does not list such a product. */
  lemma UnderscoreQueryMatchesAnyName(products: seq<Product>, p: Product, query: string)
    requires p in products
    requires Strip(query) == "_"
    requires p.name != []
    requires forall i :: 0 <= i < |p.name| ==> p.name[i] != '_'
    requires p.description.Some? ==> forall i :: 0 <= i < |p.description.value| ==> p.description.value[i] != '_'
    ensures p in SearchAsWritten(products, query)
    ensures p !in Search(products, query)
  {
    assert Lower("_") == "_" by { assert LowerChar('_') == '_'; }
    LikeUnderscoreMatchesNonEmpty(Lower(p.name));
    NoUnderscoreNotContained(p.name);
    if p.description.Some? {
      NoUnderscoreNotContained(p.description.value);
    }
  }
}
