/**
  POST /products, GET/PUT/DELETE /products/{id} (ProductController::store, show,
  update, destroy): validation, the barcode uniqueness query, and the table change.
 */
module ProductApi {
  import opened Wrappers
  import opened Text
  import opened Request
  import opened Validation
  import opened Products
  import Tables

  /** The JSON body of a create or update request. */
  datatype ProductRequest = ProductRequest(name: Input, description: Input, price: Input, barcode: Input)

  datatype Reply =
    | Created(product: Product)
    | Found(product: Product)
    | Updated(product: Product)
    | Deleted
    | NotFound
    | Invalid(errors: Errors)

  /** The table after the request, and the response. */
  datatype Outcome = Outcome(table: ProductTable, reply: Reply)

  const MaxNameLength: nat := 255
  const MaxBarcodeLength: nat := 13

  function NormalizeProduct(raw: ProductRequest): ProductRequest {
    ProductRequest(
      Normalize(raw.name, true), Normalize(raw.description, true),
      Normalize(raw.price, true), Normalize(raw.barcode, true))
  }

  /** `numeric|min:0` on a checked value: the size of a non-numeric value is its length, never negative. */
  function NumericRules(v: Input): seq<Rule> {
    if !v.Str? || !IsNumeric(v.s) then [Numeric]
    else if NumericValue(v.s) < 0.0 then [MinValue(0)]
    else []
  }

  /** `string|max:n` on a checked value; null measures 0. */
  function TextRules(v: Input, maxLength: Option<nat>): seq<Rule> {
    if !v.Str? then [IsString]
    else if maxLength.Some? && |v.s| > maxLength.value then [MaxLength(maxLength.value)]
    else []
  }

  /** `sometimes|...`: checked only when the field is in the request. */
  function SometimesRules(v: Input, rest: seq<Rule>): seq<Rule> {
    if v.Absent? || !Checked(v, false) then [] else rest
  }

  /**
    `nullable|string|max:13|unique:products,barcode[,except]`. The validator skips
    `unique` once the field has failed an earlier rule.
   */
  function BarcodeRules(rows: map<nat, Product>, v: Input, except: Option<nat>): seq<Rule> {
    if !Checked(v, true) then []
    else if |v.s| > MaxBarcodeLength then [MaxLength(MaxBarcodeLength)]
    else if BarcodeTaken(rows, v.s, except) then [Unique]
    else []
  }

  /** The rules of `store`. */
  const Fields: seq<string> := ["name", "description", "price", "barcode"]

  lemma FieldsDistinct()
    ensures Tables.Distinct(Fields)
  {
  }

  /** The failed rules of `store`, per field in `Fields` order. */
  function CreateFailures(t: ProductTable, req: ProductRequest): seq<seq<Rule>> {
    [ RequiredRules(req.name, TextRules(req.name, Some(MaxNameLength))),
      RequiredRules(req.description, TextRules(req.description, None)),
      RequiredRules(req.price, NumericRules(req.price)),
      BarcodeRules(t.rows, req.barcode, None) ]
  }

  function CreateErrors(t: ProductTable, req: ProductRequest): Errors {
    ReportAll(Fields, CreateFailures(t, req))
  }

  lemma CreateNamePasses(t: ProductTable, req: ProductRequest)
    ensures CreateFailures(t, req)[0] == [] <==> Filled(req.name) && |req.name.s| <= MaxNameLength
  {
  }

  lemma CreateDescriptionPasses(t: ProductTable, req: ProductRequest)
    ensures CreateFailures(t, req)[1] == [] <==> Filled(req.description)
  {
  }

  lemma CreatePricePasses(t: ProductTable, req: ProductRequest)
    ensures CreateFailures(t, req)[2] == [] <==>
      Filled(req.price) && IsNumeric(req.price.s) && NumericValue(req.price.s) >= 0.0
  {
  }

  lemma CreateBarcodePasses(t: ProductTable, req: ProductRequest)
    ensures CreateFailures(t, req)[3] == [] <==>
      !Filled(req.barcode) || (|req.barcode.s| <= MaxBarcodeLength && !BarcodeTaken(t.rows, req.barcode.s, None))
  {
  }

  /** `store` fails validation exactly on the requests the limits rule out. */
  lemma CreateErrorsExactly(t: ProductTable, req: ProductRequest)
    ensures CreateErrors(t, req) != map[] <==> CreateRejected(t, req)
  {
    var failed := CreateFailures(t, req);
    ReportEmpty(Fields, failed);
    FourPassed(failed);
    CreateNamePasses(t, req);
    CreateDescriptionPasses(t, req);
    CreatePricePasses(t, req);
    CreateBarcodePasses(t, req);
  }

  /** A create request that breaks one of the limits of `store`, stated field by field. */
  predicate CreateRejected(t: ProductTable, req: ProductRequest) {
    || !Filled(req.name) || |req.name.s| > MaxNameLength
    || !Filled(req.description)
    || !Filled(req.price) || !IsNumeric(req.price.s) || NumericValue(req.price.s) < 0.0
    || (Filled(req.barcode) && (|req.barcode.s| > MaxBarcodeLength || BarcodeTaken(t.rows, req.barcode.s, None)))
  }

  /** POST /products: validate, then insert one row under the next id. */
  function Store(t: ProductTable, raw: ProductRequest): (r: Outcome)
    ensures r.reply.Created? || r.reply.Invalid?
    ensures r.reply.Invalid? <==> CreateRejected(t, NormalizeProduct(raw))
    ensures r.reply.Invalid? ==> r.table == t && r.reply.errors != map[]
    ensures r.reply.Invalid? ==> r.reply.errors == CreateErrors(t, NormalizeProduct(raw))
    ensures r.reply.Created? ==>
      var req := NormalizeProduct(raw);
      var p := r.reply.product;
      && p.id == t.nextId
      && r.table == ProductTable(t.rows[p.id := p], t.nextId + 1)
      && p.name == req.name.s && p.description == req.description.s
      && p.price == NumericValue(req.price.s) && p.price >= 0.0
      && (p.barcode.Some? <==> req.barcode.Str?)
      && (p.barcode.Some? ==> p.barcode.value == req.barcode.s)
      && (p.barcode.Some? && !Blank(p.barcode.value) ==> !BarcodeTaken(t.rows, p.barcode.value, None))
  {
    var req := NormalizeProduct(raw);
    var errors := CreateErrors(t, req);
    CreateErrorsExactly(t, req);
    if errors != map[] then Outcome(t, Invalid(errors))
    else
      var barcode := if req.barcode.Str? then Some(req.barcode.s) else None;
      var p := Product(t.nextId, req.name.s, req.description.s, NumericValue(req.price.s), barcode);
      Outcome(ProductTable(t.rows[t.nextId := p], t.nextId + 1), Created(p))
  }

  /** GET /products/{id}: route-model binding answers 404 for an unknown id. */
  function Show(t: ProductTable, id: nat): (r: Reply)
    ensures r.Found? <==> id in t.rows
    ensures r.Found? ==> r.product == t.rows[id]
    ensures !r.Found? ==> r.NotFound?
  {
    if id in t.rows then Found(t.rows[id]) else NotFound
  }

  /** The rules of `update`: every field optional, barcode uniqueness ignoring row `id`. */
  function UpdateFailures(t: ProductTable, id: nat, req: ProductRequest): seq<seq<Rule>> {
    [ SometimesRules(req.name, TextRules(req.name, Some(MaxNameLength))),
      SometimesRules(req.description, TextRules(req.description, None)),
      SometimesRules(req.price, NumericRules(req.price)),
      BarcodeRules(t.rows, req.barcode, Some(id)) ]
  }

  function UpdateErrors(t: ProductTable, id: nat, req: ProductRequest): Errors {
    ReportAll(Fields, UpdateFailures(t, id, req))
  }

  lemma UpdateFieldPasses(t: ProductTable, id: nat, req: ProductRequest)
    ensures UpdateFailures(t, id, req)[0] == [] <==> !req.name.Null? && !(Filled(req.name) && |req.name.s| > MaxNameLength)
    ensures UpdateFailures(t, id, req)[1] == [] <==> !req.description.Null?
    ensures UpdateFailures(t, id, req)[2] == [] <==>
      !req.price.Null? && !(Filled(req.price) && (!IsNumeric(req.price.s) || NumericValue(req.price.s) < 0.0))
    ensures UpdateFailures(t, id, req)[3] == [] <==>
      !Filled(req.barcode) || (|req.barcode.s| <= MaxBarcodeLength && !BarcodeTaken(t.rows, req.barcode.s, Some(id)))
  {
  }

  /** `update` fails validation exactly on the requests the limits rule out. */
  lemma UpdateErrorsExactly(t: ProductTable, id: nat, req: ProductRequest)
    ensures UpdateErrors(t, id, req) != map[] <==> UpdateRejected(t, id, req)
  {
    var failed := UpdateFailures(t, id, req);
    ReportEmpty(Fields, failed);
    FourPassed(failed);
    UpdateFieldPasses(t, id, req);
  }

  /** An update request that breaks a limit of `update`, stated field by field. */
  predicate UpdateRejected(t: ProductTable, id: nat, req: ProductRequest) {
    || req.name.Null? || (Filled(req.name) && |req.name.s| > MaxNameLength)
    || req.description.Null?
    || req.price.Null? || (Filled(req.price) && (!IsNumeric(req.price.s) || NumericValue(req.price.s) < 0.0))
    || (Filled(req.barcode) && (|req.barcode.s| > MaxBarcodeLength || BarcodeTaken(t.rows, req.barcode.s, Some(id))))
  }

  /** `$product->update($validated)`: the fields present in the request overwrite the row. */
  function Apply(p: Product, req: ProductRequest): Product {
    Product(
      p.id,
      if req.name.Str? then req.name.s else p.name,
      if req.description.Str? then req.description.s else p.description,
      if req.price.Str? then NumericValue(req.price.s) else p.price,
      match req.barcode
      case Absent => p.barcode
      case Null => None
      case Str(s) => Some(s))
  }

  /** PUT /products/{id}. */
  function Update(t: ProductTable, id: nat, raw: ProductRequest): (r: Outcome)
    ensures r.reply.NotFound? <==> id !in t.rows
    ensures r.reply.NotFound? || r.reply.Invalid? || r.reply.Updated?
    ensures id in t.rows ==> (r.reply.Invalid? <==> UpdateRejected(t, id, NormalizeProduct(raw)))
    ensures !r.reply.Updated? ==> r.table == t
    ensures r.reply.Updated? ==>
      var req := NormalizeProduct(raw);
      var before := t.rows[id];
      var p := r.reply.product;
      && r.table == ProductTable(t.rows[id := p], t.nextId)
      && p.id == before.id
      && p.name == (if req.name.Absent? then before.name else req.name.s)
      && p.description == (if req.description.Absent? then before.description else req.description.s)
      && p.price == (if req.price.Absent? then before.price else NumericValue(req.price.s))
      && (req.price.Str? ==> p.price >= 0.0)
      && (req.barcode.Absent? ==> p.barcode == before.barcode)
      && (req.barcode.Null? ==> p.barcode.None?)
      && (req.barcode.Str? ==> p.barcode == Some(req.barcode.s))
  {
    if id !in t.rows then Outcome(t, NotFound)
    else
      var req := NormalizeProduct(raw);
      var errors := UpdateErrors(t, id, req);
      UpdateErrorsExactly(t, id, req);
      assert req.price.Str? && Blank(req.price.s) ==> NumericValue(req.price.s) == 0.0 by {
        if req.price.Str? && Blank(req.price.s) {
          BlankIsZero(req.price.s);
        }
      }
      if errors != map[] then Outcome(t, Invalid(errors))
      else
        var p := Apply(t.rows[id], req);
        Outcome(ProductTable(t.rows[id := p], t.nextId), Updated(p))
  }

  /** DELETE /products/{id}. */
  function Destroy(t: ProductTable, id: nat): (r: Outcome)
    ensures r.reply.Deleted? <==> id in t.rows
    ensures r.reply.Deleted? || r.reply.NotFound?
    ensures r.reply.NotFound? ==> r.table == t
    ensures r.reply.Deleted? ==>
      && r.table.nextId == t.nextId
      && id !in r.table.rows
      && (forall k :: k in r.table.rows <==> k in t.rows && k != id)
      && (forall k :: k in r.table.rows ==> r.table.rows[k] == t.rows[k])
  {
    if id !in t.rows then Outcome(t, NotFound)
    else Outcome(ProductTable(t.rows - {id}, t.nextId), Deleted)
  }

  /** Writing row `k` keeps barcodes unique when no other row holds the new barcode, if it is not blank. */
  lemma {:induction false} WriteKeepsUnique(rows: map<nat, Product>, k: nat, p: Product)
    requires BarcodesUnique(rows)
    requires p.barcode.Some? && !Blank(p.barcode.value) ==> !BarcodeTaken(rows, p.barcode.value, Some(k))
    ensures BarcodesUnique(rows[k := p])
  {
    var after := rows[k := p];
    forall i, j | i in after && j in after && i != j && after[i].barcode.Some? && !Blank(after[i].barcode.value)
      ensures after[i].barcode != after[j].barcode
    {
      if i == k {
        assert after[j] == rows[j];
        assert !(rows[j].barcode == Some(p.barcode.value) && Some(k) != Some(j));
      } else if j == k {
        assert after[i] == rows[i];
        if p.barcode.Some? {
          var code := p.barcode.value;
          assert rows[i].barcode == Some(code) ==> BarcodeTaken(rows, code, Some(k));
        }
      }
    }
  }

  /** Appending a row under the next id whose barcode is free keeps the table valid. */
  lemma AppendKeepsValid(t: ProductTable, p: Product)
    requires Valid(t) && p.id == t.nextId
    requires p.barcode.Some? && !Blank(p.barcode.value) ==> !BarcodeTaken(t.rows, p.barcode.value, None)
    ensures t.nextId !in t.rows
    ensures Valid(ProductTable(t.rows[p.id := p], t.nextId + 1))
    ensures |t.rows[p.id := p]| == |t.rows| + 1
    ensures forall k :: k in t.rows[p.id := p] <==> k in t.rows || k == p.id
  {
    WriteKeepsUnique(t.rows, p.id, p);
  }

  /** A create adds exactly one row, under a fresh id, and keeps every invariant of the table. */
  lemma StorePreservesValid(t: ProductTable, raw: ProductRequest)
    requires Valid(t)
    ensures Valid(Store(t, raw).table)
    ensures var r := Store(t, raw);
      r.reply.Created? ==>
        && r.reply.product.id !in t.rows
        && |r.table.rows| == |t.rows| + 1
        && forall k :: k in r.table.rows <==> k in t.rows || k == r.reply.product.id
  {
    var r := Store(t, raw);
    if r.reply.Created? {
      AppendKeepsValid(t, r.reply.product);
    }
  }

  /** In a valid table no other row holds a row's own non-blank barcode. */
  lemma OwnBarcodeFree(rows: map<nat, Product>, id: nat)
    requires BarcodesUnique(rows) && id in rows && rows[id].barcode.Some? && !Blank(rows[id].barcode.value)
    ensures !BarcodeTaken(rows, rows[id].barcode.value, Some(id))
  {
    forall k | k in rows && k != id
      ensures rows[k].barcode != rows[id].barcode
    {
    }
  }

  /** Overwriting an existing row, keeping its id and a free barcode, keeps the table valid. */
  lemma ReplaceKeepsValid(t: ProductTable, p: Product)
    requires Valid(t) && p.id in t.rows
    requires p.barcode.Some? && !Blank(p.barcode.value) ==> !BarcodeTaken(t.rows, p.barcode.value, Some(p.id))
    ensures Valid(ProductTable(t.rows[p.id := p], t.nextId))
  {
    WriteKeepsUnique(t.rows, p.id, p);
  }

  /** An update keeps the row's id, the set of ids, and every invariant of the table. */
  lemma UpdatePreservesValid(t: ProductTable, id: nat, raw: ProductRequest)
    requires Valid(t)
    ensures Valid(Update(t, id, raw).table)
    ensures forall k :: k in Update(t, id, raw).table.rows <==> k in t.rows
  {
    var r := Update(t, id, raw);
    if r.reply.Updated? {
      var p := r.reply.product;
      var req := NormalizeProduct(raw);
      if req.barcode.Absent? && p.barcode.Some? && !Blank(p.barcode.value) {
        OwnBarcodeFree(t.rows, id);
      }
      assert !UpdateRejected(t, id, req);
      ReplaceKeepsValid(t, p);
    }
  }

  /** A delete keeps every invariant, and repeating it answers 404 and changes nothing. */
  lemma DestroyPreservesValid(t: ProductTable, id: nat)
    requires Valid(t)
    ensures Valid(Destroy(t, id).table)
    ensures var after := Destroy(t, id).table;
      Destroy(after, id) == Outcome(after, NotFound) && Show(after, id) == NotFound
  {
  }

  /** After a create, `show` finds the new row under its id and every other id as before. */
  lemma ShowAfterStore(t: ProductTable, raw: ProductRequest, other: nat)
    ensures var r := Store(t, raw);
      r.reply.Created? ==>
        && Show(r.table, r.reply.product.id) == Found(r.reply.product)
        && (other != r.reply.product.id ==> Show(r.table, other) == Show(t, other))
  {
    var r := Store(t, raw);
    if r.reply.Created? {
      ShowOfWrite(t, r.table, r.reply.product.id, r.reply.product, other);
    }
  }

  /** After an update, `show` finds the updated row under its id and every other id as before. */
  lemma ShowAfterUpdate(t: ProductTable, raw: ProductRequest, id: nat, other: nat)
    ensures var r := Update(t, id, raw);
      r.reply.Updated? ==>
        && Show(r.table, id) == Found(r.reply.product)
        && (other != id ==> Show(r.table, other) == Show(t, other))
  {
    var r := Update(t, id, raw);
    if r.reply.Updated? {
      ShowOfWrite(t, r.table, id, r.reply.product, other);
    }
  }

  /** Showing from a table in which row `k` was written. */
  lemma ShowOfWrite(t: ProductTable, after: ProductTable, k: nat, p: Product, other: nat)
    requires after.rows == t.rows[k := p]
    ensures Show(after, k) == Found(p)
    ensures other != k ==> Show(after, other) == Show(t, other)
  {
  }

  /** Resending a row's own barcode in an update does not trip the `unique` rule. */
  lemma KeepOwnBarcode(t: ProductTable, id: nat, code: string)
    requires Valid(t) && id in t.rows && t.rows[id].barcode == Some(code)
    requires code != "" && |code| <= MaxBarcodeLength
    requires !IsSpace(code[0]) && !IsSpace(code[|code| - 1])
    ensures Update(t, id, ProductRequest(Absent, Absent, Absent, Str(code))).reply ==
      Updated(t.rows[id])
  {
    var req := ProductRequest(Absent, Absent, Absent, Str(code));
    NormalizeKeeps(code, true);
    assert NormalizeProduct(req) == req;
    if !Blank(code) {
      OwnBarcodeFree(t.rows, id);
    }
    assert !UpdateRejected(t, id, req);
  }

  /**
    The same barcode sent to `store` is refused: another row already holds it. The
    entry says `unique`, or only the length when the barcode is also too long.
   */
  lemma StoreRefusesTakenBarcode(t: ProductTable, raw: ProductRequest, id: nat)
    requires id in t.rows && t.rows[id].barcode.Some? && !Blank(t.rows[id].barcode.value)
    requires NormalizeProduct(raw).barcode == Str(t.rows[id].barcode.value)
    ensures Store(t, raw).reply.Invalid?
    ensures "barcode" in Store(t, raw).reply.errors
    ensures |t.rows[id].barcode.value| <= MaxBarcodeLength ==> Store(t, raw).reply.errors["barcode"] == [Unique]
    ensures |t.rows[id].barcode.value| > MaxBarcodeLength ==>
      Store(t, raw).reply.errors["barcode"] == [MaxLength(MaxBarcodeLength)]
  {
    var req := NormalizeProduct(raw);
    assert BarcodeTaken(t.rows, req.barcode.s, None);
    TakenBarcodeReported(t, req);
  }

  /**
    A blank barcode (NUL alone survives the middleware) skips `string|max|unique`, so
    a create that passes the other rules stores it even when another row holds it.
   */
  lemma BlankBarcodeStored(t: ProductTable, raw: ProductRequest)
    requires NormalizeProduct(raw).barcode.Str? && Blank(NormalizeProduct(raw).barcode.s)
    requires var req := NormalizeProduct(raw);
      && Filled(req.name) && |req.name.s| <= MaxNameLength && Filled(req.description)
      && Filled(req.price) && IsNumeric(req.price.s) && NumericValue(req.price.s) >= 0.0
    ensures Store(t, raw).reply.Created?
    ensures Store(t, raw).reply.product.barcode == Some(NormalizeProduct(raw).barcode.s)
  {
    BlankBarcodeAccepted(t, NormalizeProduct(raw));
  }

  /** A blank barcode never makes the rules of `store` refuse a request. */
  lemma BlankBarcodeAccepted(t: ProductTable, req: ProductRequest)
    requires req.barcode.Str? && Blank(req.barcode.s)
    ensures CreateFailures(t, req)[3] == []
    ensures CreateRejected(t, req) <==>
      || !Filled(req.name) || |req.name.s| > MaxNameLength || !Filled(req.description)
      || !Filled(req.price) || !IsNumeric(req.price.s) || NumericValue(req.price.s) < 0.0
  {
    assert !Filled(req.barcode);
  }

  /** A filled barcode another row holds is reported on `barcode` by the rules of `store`. */
  lemma TakenBarcodeReported(t: ProductTable, req: ProductRequest)
    requires Filled(req.barcode) && BarcodeTaken(t.rows, req.barcode.s, None)
    ensures CreateRejected(t, req)
    ensures "barcode" in CreateErrors(t, req)
    ensures |req.barcode.s| <= MaxBarcodeLength ==> CreateErrors(t, req)["barcode"] == [Unique]
    ensures |req.barcode.s| > MaxBarcodeLength ==> CreateErrors(t, req)["barcode"] == [MaxLength(MaxBarcodeLength)]
  {
    var failed := CreateFailures(t, req);
    assert failed[3] != [];
    assert Fields[3] == "barcode";
    FieldsDistinct();
    ReportedAs(Fields, failed, 3);
  }
}
