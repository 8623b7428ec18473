/** The products table and its invariants. */
module Products {
  import opened Wrappers
  import Text
  import Tables

  /** One row of `products`; the price is kept exactly, as a real number. */
  datatype Product = Product(id: nat, name: string, description: string, price: real, barcode: Option<string>)

  /** The table: rows keyed by id, and the next auto-increment id. */
  datatype ProductTable = ProductTable(rows: map<nat, Product>, nextId: nat)

  /** Every row sits under its own id, and every id was handed out already. */
  predicate WellKeyed(t: ProductTable) {
    forall k :: k in t.rows ==> t.rows[k].id == k && k < t.nextId
  }

  /**
    No two rows share a non-blank barcode. Any number of rows may have none, and a
    blank barcode skips the `unique` rule, so several rows may hold the same one.
   */
  predicate BarcodesUnique(rows: map<nat, Product>) {
    forall i, j :: i in rows && j in rows && i != j && rows[i].barcode.Some? && !Text.Blank(rows[i].barcode.value) ==>
      rows[i].barcode != rows[j].barcode
  }

  predicate Valid(t: ProductTable) {
    WellKeyed(t) && BarcodesUnique(t.rows)
  }

  /** A row other than `except` already carries `code`: the query behind the `unique` rule. */
  predicate BarcodeTaken(rows: map<nat, Product>, code: string, except: Option<nat>) {
    exists k :: k in rows && rows[k].barcode == Some(code) && except != Some(k)
  }

  /** The table's rows in id order, as an unordered query returns them. */
  function Rows(t: ProductTable): (r: seq<Product>)
    ensures forall p :: p in r ==> p in t.rows.Values
    ensures WellKeyed(t) ==> forall p :: p in t.rows.Values ==> p in r
    ensures WellKeyed(t) ==> forall i, j :: 0 <= i < j < |r| ==> r[i].id < r[j].id
    ensures WellKeyed(t) ==> Tables.Distinct(r)
  {
    var r := Tables.Scan(t.rows, t.nextId);
    assert WellKeyed(t) ==> forall p :: p in t.rows.Values ==> p in r by {
      if WellKeyed(t) {
        forall p | p in t.rows.Values
          ensures p in r
        {
          var k :| k in t.rows && t.rows[k] == p;
        }
      }
    }
    r
  }
}
