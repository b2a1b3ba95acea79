/** The admin's product forms: the add form
    (front-end/my-app/src/pages/admin/ProductForm.jsx) and the edit/view
    form (front-end/my-app/src/pages/admin/EditProductForm.jsx) — field
    updates, the submit-enable rule and the multipart body each builds. */
module ProductForms {
  import opened Wrappers
  import opened Strings
  import opened Objects
  import Store
  import Products

  /** A field's value as the page's state holds it. */
  datatype Value =
    | Text(s: string)               // an input's value, or a string from the server
    | Number(n: int)                // a number from the server (price, stock)
    | TextList(items: seq<string>)  // an array of strings (ingredients from the server)
    | Ref(id: string)               // a populated document (the brand), read by its `_id`
    | File(name: string)            // a chosen file
    | Null
    | Undefined

  /** JavaScript truthiness of a value. */
  predicate Truthy(v: Value)
  {
    match v
    case Text(s) => s != ""
    case Number(n) => n != 0
    case Null => false
    case Undefined => false
    case _ => true
  }

  type Form = Object<Value>

  /** `product[key]`, `undefined` when the key is absent. */
  function ValueOf(form: Form, key: string): (v: Value)
    ensures key !in Keys(form) ==> v == Undefined
    ensures key in Keys(form) ==> Lookup(form, key) == Some(v)
  {
    match Lookup(form, key)
    case None => Undefined
    case Some(v) => v
  }

  /** One `formData.append` call. */
  datatype Part = Entry(key: string, value: string) | FilePart(key: string, fileName: string)

  /** `formData.append(key, value)` of a non-file value: the value is
      converted with `String(...)`. */
  function Append(key: string, v: Value): (p: Part)
    ensures p.key == key
    ensures p.FilePart? <==> v.File?
  {
    match v
    case Text(s) => Entry(key, s)
    case Number(n) => Entry(key, IntToString(n))
    case TextList(items) => Entry(key, Join(items, ','))
    case Ref(_) => Entry(key, "[object Object]")
    case File(name) => FilePart(key, name)
    case Null => Entry(key, "null")
    case Undefined => Entry(key, "undefined")
  }

  /** The values sent under one part key. */
  function Collect(parts: seq<Part>, key: string): (r: seq<string>)
    ensures |r| <= |parts|
  {
    if parts == [] then []
    else (if parts[0].Entry? && parts[0].key == key then [parts[0].value] else []) + Collect(parts[1..], key)
  }

  lemma {:induction false} CollectAppend(a: seq<Part>, b: seq<Part>, key: string)
    ensures Collect(a + b, key) == Collect(a, key) + Collect(b, key)
    decreases |a|
  {
    if a != [] {
      assert (a + b)[0] == a[0];
      assert (a + b)[1..] == a[1..] + b;
      CollectAppend(a[1..], b, key);
    } else {
      assert a + b == b;
    }
  }

  /** Whether any part carries a file. */
  predicate HasFile(parts: seq<Part>)
  {
    exists i :: 0 <= i < |parts| && parts[i].FilePart?
  }

  /** What pressing submit does. */
  datatype SubmitStep = NoRequest | Threw | Sent(parts: seq<Part>)

  // ---------------------------------------------------------------------
  // The add form
  // ---------------------------------------------------------------------

  /** The add form's initial state: every field empty, no image. */
  const InitialAddForm: Form := [
    ("name", Text("")), ("description", Text("")), ("price", Text("")), ("category", Text("")),
    ("ingredients", Text("")), ("skinType", Text("")), ("stock", Text("")), ("brand", Text("")),
    ("image", Null)]

  /** `handleChange` of the add form. */
  function AddChange(form: Form, name: string, value: string): (r: Form)
    ensures ValueOf(r, name) == Text(value)
    ensures forall key :: key != name ==> ValueOf(r, key) == ValueOf(form, key)
    ensures Keys(r) == Keys(form) + {name}
  {
    Write(form, name, Text(value))
  }

  /** `handleFileChange` of the add form; `files[0]` is `undefined` when
      the picker is cleared. */
  function AddFile(form: Form, file: Option<string>): (r: Form)
    ensures ValueOf(r, "image") == if file.Some? then File(file.value) else Undefined
    ensures forall key :: key != "image" ==> ValueOf(r, key) == ValueOf(form, key)
  {
    Write(form, "image", if file.Some? then File(file.value) else Undefined)
  }

  /** `{...product, [key]: v}`, read back through `ValueOf`. */
  function Write(form: Form, key: string, v: Value): (r: Form)
    ensures ValueOf(r, key) == v
    ensures forall other :: other != key ==> ValueOf(r, other) == ValueOf(form, other)
    ensures Keys(r) == Keys(form) + {key}
  {
    var r := Put(form, key, v);
    LookupPut(form, key, v, key);
    PutKeys(form, key, v);
    assert forall other :: other != key ==> ValueOf(r, other) == ValueOf(form, other) by {
      forall other | other != key ensures ValueOf(r, other) == ValueOf(form, other) {
        LookupPut(form, key, v, other);
      }
    }
    r
  }

  /** The add button's `disabled`: any of name, price, category, stock or
      brand falsy. */
  predicate AddDisabled(form: Form)
  {
    !Truthy(ValueOf(form, "name")) || !Truthy(ValueOf(form, "price")) || !Truthy(ValueOf(form, "category"))
    || !Truthy(ValueOf(form, "stock")) || !Truthy(ValueOf(form, "brand"))
  }

  /** One key of the add form's body: ingredients go through
      `split(",")`, which throws on anything but a string; the rest are
      appended as they are. */
  function AddPart(key: string, v: Value): (r: Option<Part>)
    ensures key != "ingredients" ==> r == Some(Append(key, v))
    ensures key == "ingredients" ==> (r.Some? <==> v.Text?)
  {
    if key == "ingredients" then
      if v.Text? then Some(Entry(key, Join(Split(v.s, ','), ','))) else None
    else Some(Append(key, v))
  }

  /** `handleSubmit` of the add form: one part per key, in key order. */
  function AddSubmit(form: Form): (r: SubmitStep)
    ensures r != NoRequest
    ensures r.Sent? ==> |r.parts| == |form|
    ensures r.Sent? ==> forall i :: 0 <= i < |form| ==> AddPart(form[i].0, form[i].1) == Some(r.parts[i])
    ensures r == Threw <==> exists i :: 0 <= i < |form| && AddPart(form[i].0, form[i].1).None?
  {
    if form == [] then Sent([])
    else
      match AddPart(form[0].0, form[0].1)
      case None => Threw
      case Some(p) =>
        var rest := AddSubmit(form[1..]);
        if rest.Sent? then
          assert forall i :: 0 <= i < |form| ==> AddPart(form[i].0, form[i].1) == Some(([p] + rest.parts)[i]) by {
            forall i | 0 <= i < |form| ensures AddPart(form[i].0, form[i].1) == Some(([p] + rest.parts)[i]) {
              if i > 0 { assert form[i] == form[1..][i - 1]; }
            }
          }
          Sent([p] + rest.parts)
        else
          assert exists i :: 0 <= i < |form| && AddPart(form[i].0, form[i].1).None? by {
            var j :| 0 <= j < |form[1..]| && AddPart(form[1..][j].0, form[1..][j].1).None?;
            assert form[j + 1] == form[1..][j];
          }
          Threw
  }

  /** Splitting the ingredient text and letting `append` join it again
      sends the typed text unchanged, and the server splits it into the
      same pieces the text holds between commas. */
  lemma AddIngredientsVerbatim(text: string)
    ensures AddPart("ingredients", Text(text)) == Some(Entry("ingredients", text))
    ensures Join(Products.Ingredients(Some(text)), ',') == text
  {
    JoinSplit(text, ',');
    Products.IngredientsRoundTrip(text);
  }

  /** The initial form cannot be submitted. */
  lemma InitialAddDisabled()
    ensures AddDisabled(InitialAddForm)
  {
    assert Lookup(InitialAddForm, "name") == Some(Text(""));
  }

  /** Filling the five required fields with non-empty text enables the
      add button, whatever the form held before. */
  lemma AddEnabledOnceFilled(form: Form, name: string, price: string, category: string, stock: string,
                             brand: string)
    requires name != "" && price != "" && category != "" && stock != "" && brand != ""
    ensures !AddDisabled(AddChange(AddChange(AddChange(AddChange(AddChange(form,
      "name", name), "price", price), "category", category), "stock", stock), "brand", brand))
  {
    var f1 := AddChange(form, "name", name);
    var f2 := AddChange(f1, "price", price);
    var f3 := AddChange(f2, "category", category);
    var f4 := AddChange(f3, "stock", stock);
    var f5 := AddChange(f4, "brand", brand);
    assert "name"[0] == 'n' && "price"[0] == 'p' && "category"[0] == 'c' && "stock"[0] == 's' && "brand"[0] == 'b';
    assert ValueOf(f5, "name") == Text(name) by {
      assert ValueOf(f2, "name") == ValueOf(f1, "name");
      assert ValueOf(f3, "name") == ValueOf(f2, "name");
      assert ValueOf(f4, "name") == ValueOf(f3, "name");
    }
    assert ValueOf(f5, "price") == Text(price) by {
      assert ValueOf(f3, "price") == ValueOf(f2, "price");
      assert ValueOf(f4, "price") == ValueOf(f3, "price");
    }
    assert ValueOf(f5, "category") == Text(category) by {
      assert ValueOf(f4, "category") == ValueOf(f3, "category");
    }
    assert ValueOf(f5, "stock") == Text(stock);
  }

  /** No field of the form holds a file. */
  predicate NoFileIn(form: Form)
  {
    forall i :: 0 <= i < |form| ==> !form[i].1.File?
  }

  /** `handleChange` only ever writes text, so it never adds a file. */
  lemma AddChangeKeepsNoFile(form: Form, name: string, value: string)
    requires NoFileIn(form)
    ensures NoFileIn(AddChange(form, name, value))
  {
    var r := AddChange(form, name, value);
    PutOnlyWrites(form, name, Text(value));
    forall i | 0 <= i < |r| ensures !r[i].1.File? {
      assert r[i] == (name, Text(value)) || r[i] in form;
    }
  }

  /** Submitting an add form in which no file was picked sends no file
      part, and the create handler answers 400 for a request without a
      file; the initial form holds none. */
  lemma {:induction false} AddWithoutImageRejected(form: Form, st: Store.Store, newId: Store.Id,
                                                   fields: Products.ProductForm)
    requires NoFileIn(form)
    ensures NoFileIn(InitialAddForm)
    ensures AddSubmit(form).Sent? ==> !HasFile(AddSubmit(form).parts)
    ensures Products.CreateProduct(st, newId, fields, None).reply == Products.MissingFile
  {
    if AddSubmit(form).Sent? {
      var parts := AddSubmit(form).parts;
      forall i | 0 <= i < |parts| ensures !parts[i].FilePart? {
        assert AddPart(form[i].0, form[i].1) == Some(parts[i]);
      }
    }
  }

  // ---------------------------------------------------------------------
  // The edit / view form
  // ---------------------------------------------------------------------

  /** `handleChange` of the edit form: nothing in view-only mode. */
  function EditChange(form: Form, viewOnly: bool, name: string, value: string): (r: Form)
    ensures viewOnly ==> r == form
    ensures !viewOnly ==> ValueOf(r, name) == Text(value)
    ensures forall key :: key != name ==> ValueOf(r, key) == ValueOf(form, key)
  {
    if viewOnly then form else Write(form, name, Text(value))
  }

  /** `handleFileChange` of the edit form: nothing in view-only mode. */
  function EditFile(form: Form, viewOnly: bool, file: Option<string>): (r: Form)
    ensures viewOnly ==> r == form
    ensures !viewOnly ==> ValueOf(r, "image") == if file.Some? then File(file.value) else Undefined
    ensures forall key :: key != "image" ==> ValueOf(r, key) == ValueOf(form, key)
  {
    if viewOnly then form else Write(form, "image", if file.Some? then File(file.value) else Undefined)
  }

  /** The edit button's `disabled`: any of name, price, category or stock
      falsy (the brand is not checked). */
  predicate EditDisabled(form: Form)
  {
    !Truthy(ValueOf(form, "name")) || !Truthy(ValueOf(form, "price")) || !Truthy(ValueOf(form, "category"))
    || !Truthy(ValueOf(form, "stock"))
  }

  /** A product loaded with a stock of 0 cannot be saved until the stock is
      changed, since 0 is falsy. */
  lemma ZeroStockBlocksSave(form: Form)
    requires ValueOf(form, "stock") == Number(0)
    ensures EditDisabled(form)
  {
  }

  /** The parts one key of the edit form contributes: an ingredient array
      one `ingredients[]` entry per element; for `brand`, anything of type
      "object" by its `_id` (an array has none, and `null` throws); every
      other value appended as it is. */
  function EditParts(key: string, v: Value): (r: Option<seq<Part>>)
    ensures key == "ingredients" && v.TextList? ==>
      r == Some(seq(|v.items|, i requires 0 <= i < |v.items| => Entry("ingredients[]", v.items[i])))
    ensures key == "brand" && v.Ref? ==> r == Some([Entry("brand", v.id)])
    ensures r.None? <==> key == "brand" && v.Null?
    ensures !(key == "ingredients" && v.TextList?) && !(key == "brand" && (v.Ref? || v.TextList? || v.Null?)) ==>
      r == Some([Append(key, v)])
  {
    if key == "ingredients" && v.TextList? then
      Some(seq(|v.items|, i requires 0 <= i < |v.items| => Entry("ingredients[]", v.items[i])))
    else if key == "brand" && v.Ref? then Some([Entry("brand", v.id)])
    else if key == "brand" && v.TextList? then Some([Entry("brand", "undefined")])
    else if key == "brand" && v.Null? then None
    else Some([Append(key, v)])
  }

  /** The body the edit form builds, key by key; `None` when a key throws. */
  function EditBody(form: Form): (r: Option<seq<Part>>)
    ensures r.None? <==> exists i :: 0 <= i < |form| && EditParts(form[i].0, form[i].1).None?
  {
    if form == [] then Some([])
    else
      var rest := EditBody(form[1..]);
      assert (exists i :: 0 <= i < |form| && EditParts(form[i].0, form[i].1).None?) <==>
        EditParts(form[0].0, form[0].1).None? || rest.None? by {
        if rest.None? {
          var j :| 0 <= j < |form[1..]| && EditParts(form[1..][j].0, form[1..][j].1).None?;
          assert form[j + 1] == form[1..][j];
        }
        if exists i :: 0 <= i < |form| && EditParts(form[i].0, form[i].1).None? {
          var i :| 0 <= i < |form| && EditParts(form[i].0, form[i].1).None?;
          if i > 0 { assert form[1..][i - 1] == form[i]; }
        }
      }
      match EditParts(form[0].0, form[0].1)
      case None => None
      case Some(p) => if rest.None? then None else Some(p + rest.value)
  }

  /** `handleSubmit` of the edit form. */
  function EditSubmit(form: Form, viewOnly: bool): (r: SubmitStep)
    ensures viewOnly ==> r == NoRequest
    ensures !viewOnly ==> (r == Threw <==> EditBody(form).None?)
    ensures r.Sent? ==> r.parts == EditBody(form).value
  {
    if viewOnly then NoRequest
    else match EditBody(form)
      case None => Threw
      case Some(parts) => Sent(parts)
  }

  /** The part key a form key's entries are sent under belongs to that
      form key only: `ingredients[]` to `ingredients`, any other to itself. */
  function Owner(partKey: string): string
  {
    if partKey == "ingredients[]" then "ingredients" else partKey
  }

  lemma EditPartsOwned(key: string, v: Value, partKey: string)
    requires EditParts(key, v).Some? && key != "ingredients[]"
    ensures Owner(partKey) != key ==> Collect(EditParts(key, v).value, partKey) == []
  {
    var parts := EditParts(key, v).value;
    if Owner(partKey) != key {
      forall i | 0 <= i < |parts| ensures parts[i].key != partKey {
      }
      NoneCollected(parts, partKey);
    }
  }

  lemma {:induction false} NoneCollected(parts: seq<Part>, key: string)
    requires forall i :: 0 <= i < |parts| ==> parts[i].key != key
    ensures Collect(parts, key) == []
    decreases |parts|
  {
    if parts != [] {
      NoneCollected(parts[1..], key);
    }
  }

  /** The values the server receives under a part key are exactly those
      the owning form key contributed. */
  lemma {:induction false} EditCollectOwned(form: Form, partKey: string)
    requires UniqueKeys(form) && "ingredients[]" !in Keys(form)
    requires EditBody(form).Some?
    ensures Owner(partKey) !in Keys(form) ==> Collect(EditBody(form).value, partKey) == []
    ensures Owner(partKey) in Keys(form) ==>
      var v := ValueOf(form, Owner(partKey));
      EditParts(Owner(partKey), v).Some? &&
      Collect(EditBody(form).value, partKey) == Collect(EditParts(Owner(partKey), v).value, partKey)
    decreases |form|
  {
    if form != [] {
      assert form == [form[0]] + form[1..];
      UniqueCons(form[0], form[1..]);
      KeysCons(form[0], form[1..]);
      var p := EditParts(form[0].0, form[0].1).value;
      var rest := EditBody(form[1..]).value;
      EditCollectOwned(form[1..], partKey);
      CollectAppend(p, rest, partKey);
      EditPartsOwned(form[0].0, form[0].1, partKey);
    }
  }

  /** Every loaded ingredient reaches the server, in order, as one
      `ingredients[]` value each. */
  lemma EditIngredientsArrive(form: Form, items: seq<string>)
    requires UniqueKeys(form) && "ingredients[]" !in Keys(form)
    requires ValueOf(form, "ingredients") == TextList(items)
    requires EditSubmit(form, false).Sent?
    ensures Collect(EditSubmit(form, false).parts, "ingredients[]") == items
  {
    EditCollectOwned(form, "ingredients[]");
    EntriesCollected(items, "ingredients[]");
  }

  lemma {:induction false} EntriesCollected(items: seq<string>, key: string)
    ensures Collect(seq(|items|, i requires 0 <= i < |items| => Entry(key, items[i])), key) == items
    decreases |items|
  {
    if items != [] {
      var parts := seq(|items|, i requires 0 <= i < |items| => Entry(key, items[i]));
      EntriesCollected(items[1..], key);
      assert parts[1..] == seq(|items[1..]|, i requires 0 <= i < |items[1..]| => Entry(key, items[1..][i]));
    }
  }

  /** A populated brand reaches the server as its id alone. */
  lemma EditBrandSentAsId(form: Form, id: string)
    requires UniqueKeys(form) && "ingredients[]" !in Keys(form)
    requires ValueOf(form, "brand") == Ref(id)
    requires EditSubmit(form, false).Sent?
    ensures Collect(EditSubmit(form, false).parts, "brand") == [id]
  {
    EditCollectOwned(form, "brand");
  }

  /** A `null` brand makes the edit form's submit throw before any request. */
  lemma NullBrandThrows(form: Form)
    requires ValueOf(form, "brand") == Null
    ensures EditSubmit(form, false) == Threw
  {
    var i :| 0 <= i < |form| && form[i] == ("brand", Null);
    assert EditParts(form[i].0, form[i].1).None?;
  }
}
