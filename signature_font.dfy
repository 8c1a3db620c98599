/**
 * `configure_signature_font` (python/generate_form.py:1300-1375): point the
 * signature widget of the first page at an embedded font. When the AcroForm
 * is inline and has a `/Fields[...]` array, it is replaced by a fresh
 * indirect AcroForm that lists the same fields and a `/DR` font resource for
 * the font; then the widget's `/DA` is set to the font and its `/AP` is
 * removed so that a reader regenerates the appearance.
 */
module SignatureFont {
  import opened Wrappers
  import opened Text
  import opened RefArray
  import opened PdfDoc
  import opened Matching

  /** The field name the signature widget is looked up by. */
  const SignatureFieldName := "auth_whiner_signature"

  // ---- Finding the widget (python/generate_form.py:1320-1328)

  /** The index of the first widget from `i` on whose field name is `name`. */
  function FirstNamed(ws: seq<Widget>, name: string, i: nat): (r: Option<nat>)
    requires i <= |ws|
    ensures r.Some? ==> i <= r.value < |ws| && ws[r.value].fieldName == name
    decreases |ws| - i
  {
    if i == |ws| then None
    else if ws[i].fieldName == name then Some(i)
    else FirstNamed(ws, name, i + 1)
  }

  /** The widget found is the first so named; when none is found no widget from `i` on is so named. */
  lemma {:induction false} FirstNamedIsFirst(ws: seq<Widget>, name: string, i: nat)
    requires i <= |ws|
    ensures FirstNamed(ws, name, i).Some? ==> forall j :: i <= j < FirstNamed(ws, name, i).value ==> ws[j].fieldName != name
    ensures FirstNamed(ws, name, i).None? ==> forall j :: i <= j < |ws| ==> ws[j].fieldName != name
    decreases |ws| - i
  {
    if i < |ws| && ws[i].fieldName != name {
      FirstNamedIsFirst(ws, name, i + 1);
    }
  }

  /** The loop over `page.widgets()` that stops at the signature widget. */
  method FindSignatureWidget(page0: seq<Widget>) returns (found: Option<Widget>)
    ensures found.Some? <==> FirstNamed(page0, SignatureFieldName, 0).Some?
    ensures found.Some? ==> found.value == page0[FirstNamed(page0, SignatureFieldName, 0).value]
  {
    var i := 0;
    while i < |page0|
      invariant i <= |page0|
      invariant FirstNamed(page0, SignatureFieldName, 0) == FirstNamed(page0, SignatureFieldName, i)
    {
      if page0[i].fieldName == SignatureFieldName {
        return Some(page0[i]);
      }
      i := i + 1;
    }
    return None;
  }

  // ---- `re.search(r'/Fields\[(.*?)\]', fields_str)` (python/generate_form.py:1341-1344)

  /** The first `]` at or after `j`, unless a newline or the end of the text comes first (`(.*?)\]`). */
  function LazyClose(s: string, j: nat): (r: Option<nat>)
    requires j <= |s|
    ensures r.Some? ==> j <= r.value < |s| && s[r.value] == ']'
    decreases |s| - j
  {
    if j == |s| || s[j] == '\n' then None
    else if s[j] == ']' then Some(j)
    else LazyClose(s, j + 1)
  }

  /**
   * The pattern matches with its group spanning `a..k`: `/Fields[` just
   * before `a`, then characters other than a newline up to the `]` at `k`;
   * the lazy group stops at the first `]`.
   */
  ghost predicate MatchesAt(s: string, a: nat, k: nat) {
    8 <= a <= k < |s| && s[a - 8..a] == "/Fields[" && s[k] == ']'
    && forall j :: a <= j < k ==> s[j] != '\n' && s[j] != ']'
  }

  /** The search from position `p`: the start and end of the group at the leftmost match. */
  function FieldsMatchFrom(s: string, p: nat): (r: Option<(nat, nat)>)
    requires p <= |s|
    ensures r.Some? ==> p + 8 <= r.value.0 <= r.value.1 < |s|
    decreases |s| - p
  {
    if p + 8 > |s| then None
    else if s[p..p + 8] == "/Fields[" && LazyClose(s, p + 8).Some? then Some((p + 8, LazyClose(s, p + 8).value))
    else FieldsMatchFrom(s, p + 1)
  }

  /** `fields_match.group(1)`, or None when the search finds nothing. */
  function FieldsContent(s: string): Option<string> {
    match FieldsMatchFrom(s, 0)
    case Some((a, k)) => Some(s[a..k])
    case None => None
  }

  /** `LazyClose` finds the one `]` that can end the group at `a`, and fails exactly when none can. */
  lemma {:induction false} LazyCloseSpec(s: string, a: nat, j: nat)
    requires 8 <= a <= j <= |s| && s[a - 8..a] == "/Fields["
    requires forall t :: a <= t < j ==> s[t] != '\n' && s[t] != ']'
    ensures LazyClose(s, j).Some? ==> MatchesAt(s, a, LazyClose(s, j).value)
    ensures forall k :: MatchesAt(s, a, k) && j <= k ==> LazyClose(s, j) == Some(k)
    decreases |s| - j
  {
    if j < |s| && s[j] != '\n' && s[j] != ']' {
      LazyCloseSpec(s, a, j + 1);
    }
  }

  /**
   * `re.search` semantics: the group found belongs to the leftmost position
   * where the pattern matches, it ends at the only `]` that can close it
   * there, and when nothing is found the pattern matches nowhere.
   */
  lemma {:induction false} FieldsMatchSpec(s: string, p: nat)
    requires p <= |s|
    ensures var r := FieldsMatchFrom(s, p);
      (r.Some? ==>
        MatchesAt(s, r.value.0, r.value.1)
        && (forall k :: MatchesAt(s, r.value.0, k) ==> k == r.value.1)
        && (forall a, k :: p + 8 <= a < r.value.0 ==> !MatchesAt(s, a, k)))
      && (r.None? ==> forall a, k :: p + 8 <= a ==> !MatchesAt(s, a, k))
    decreases |s| - p
  {
    if p + 8 <= |s| {
      if s[p..p + 8] == "/Fields[" {
        LazyCloseSpec(s, p + 8, p + 8);
      }
      if !(s[p..p + 8] == "/Fields[" && LazyClose(s, p + 8).Some?) {
        FieldsMatchSpec(s, p + 1);
      }
    }
  }

  // ---- The new AcroForm and the widget's keys (python/generate_form.py:1346-1368)

  /** The `/DR` text `<< /Font << /Helv /Helvetica /name xref 0 R >> >>`. */
  function FontResources(fontName: string, fontXref: nat): string {
    "<< /Font << /Helv /Helvetica /" + fontName + " " + RefText(fontXref) + " >> >>"
  }

  /**
   * The dictionary that `<< /Fields [content] /DR ... >>` denotes: the
   * fields array copied from the inline AcroForm and the font resources,
   * and no other key.
   */
  function FontAcroForm(content: string, fontName: string, fontXref: nat): (d: Dictionary)
    ensures d.Keys == {"Fields", "DR"}
    ensures d["Fields"] == Value(Array, "[" + content + "]") && d["DR"] == Value(Dict, FontResources(fontName, fontXref))
  {
    map["Fields" := Value(Array, "[" + content + "]"), "DR" := Value(Dict, FontResources(fontName, fontXref))]
  }

  /**
   * The new AcroForm's `/Fields` array reads back as exactly the references,
   * in order, that the inline AcroForm's `/Fields[...]` text held.
   */
  lemma FontAcroFormFields(content: string, fontName: string, fontXref: nat)
    ensures var d := FontAcroForm(content, fontName, fontXref);
      d["Fields"].kind == Array && ParseRefArray(d["Fields"].raw) == ParseRefArray(content)
  {
    assert "[" + content + "]" == ['['] + (content + "]");
    ParseSkip('[', content + "]");
    ParseBeforeClose(content);
  }

  /** The `/DA` string `0 0 0 rg /name size Tf`: black text in the font at that size. */
  function SignatureDA(fontName: string, fontSize: nat): string {
    "0 0 0 rg /" + fontName + " " + NatToString(fontSize) + " Tf"
  }

  /** Step 1: the object table and counter after the AcroForm is given its font resources. */
  function AddFontResources(objs: Objects, next: nat, catalog: nat, fontXref: nat, fontName: string): (r: DocState)
    requires catalog in objs && forall x :: x in objs ==> x < next
  {
    var v := KeyOf(objs, catalog, "AcroForm");
    if v.kind == Dict && FieldsContent(v.raw).Some? then
      DocState(WithKey(objs[next := FontAcroForm(FieldsContent(v.raw).value, fontName, fontXref)], catalog, "AcroForm",
        Value(Xref, RefText(next))), next + 1)
    else DocState(objs, next)
  }

  /**
   * `configure_signature_font(doc, font_xref, font_name, font_size)` over the
   * object table, with `page0` the widgets of the first page in order.
   */
  function ConfigureSignature(objs: Objects, next: nat, catalog: nat, page0: seq<Widget>,
                              fontXref: nat, fontName: string, fontSize: nat): (r: DocState)
    requires catalog in objs && forall x :: x in objs ==> x < next
    requires forall i :: 0 <= i < |page0| ==> page0[i].xref in objs
  {
    match FirstNamed(page0, SignatureFieldName, 0)
    case None => DocState(objs, next)
    case Some(i) =>
      var p := AddFontResources(objs, next, catalog, fontXref, fontName);
      var x := page0[i].xref;
      var withDA := WithKey(p.objects, x, "DA", Value(String, SignatureDA(fontName, fontSize)));
      DocState(WithKey(withDA, x, "AP", NullValue), p.nextXref)
  }

  /**
   * Step 1 on its own: an inline AcroForm with a `/Fields[...]` array
   * becomes the fresh object `next`, holding that array's text and the font
   * resources, and the catalog points to it, every other key of the catalog
   * as it was; any other AcroForm is left alone and nothing is allocated.
   * No object but the catalog changes.
   */
  lemma AddFontResourcesSpec(objs: Objects, next: nat, catalog: nat, fontXref: nat, fontName: string)
    requires catalog in objs && forall x :: x in objs ==> x < next
    ensures var r := AddFontResources(objs, next, catalog, fontXref, fontName);
      var v := KeyOf(objs, catalog, "AcroForm");
      var fields := FieldsContent(v.raw);
      (forall y :: y in objs && y != catalog ==> y in r.objects && r.objects[y] == objs[y])
      && (v.kind == Dict && fields.Some? ==>
            r.nextXref == next + 1 && r.objects.Keys == objs.Keys + {next}
            && r.objects[next] == FontAcroForm(fields.value, fontName, fontXref)
            && KeyOf(r.objects, catalog, "AcroForm") == Value(Xref, RefText(next))
            && RefTarget(KeyOf(r.objects, catalog, "AcroForm").raw) == Some(next)
            && forall k :: k != "AcroForm" ==> KeyOf(r.objects, catalog, k) == KeyOf(objs, catalog, k))
      && (!(v.kind == Dict && fields.Some?) ==> r == DocState(objs, next))
  {
    var v := KeyOf(objs, catalog, "AcroForm");
    if v.kind == Dict && FieldsContent(v.raw).Some? {
      RefTextRoundTrip(next);
      assert next !in objs;
      var o := objs[next := FontAcroForm(FieldsContent(v.raw).value, fontName, fontXref)];
      assert forall k :: KeyOf(o, catalog, k) == KeyOf(objs, catalog, k);
    }
  }

  /**
   * The patch: without a signature widget on the first page nothing
   * changes. Otherwise, for the first such widget, its `/DA` names the font
   * at the size, its `/AP` is gone and every other key of it is as step 1
   * left it; step 1 decides the counter, and no other object changes.
   */
  lemma ConfigureSignatureSpec(objs: Objects, next: nat, catalog: nat, page0: seq<Widget>,
                               fontXref: nat, fontName: string, fontSize: nat)
    requires catalog in objs && forall x :: x in objs ==> x < next
    requires forall i :: 0 <= i < |page0| ==> page0[i].xref in objs
    ensures var r := ConfigureSignature(objs, next, catalog, page0, fontXref, fontName, fontSize);
      var found := FirstNamed(page0, SignatureFieldName, 0);
      var p := AddFontResources(objs, next, catalog, fontXref, fontName);
      (found.None? ==> r == DocState(objs, next))
      && (found.Some? ==>
            var x := page0[found.value].xref;
            r.nextXref == p.nextXref && r.objects.Keys == p.objects.Keys
            && KeyOf(r.objects, x, "DA") == Value(String, SignatureDA(fontName, fontSize))
            && KeyOf(r.objects, x, "AP") == NullValue
            && (forall k :: k != "DA" && k != "AP" ==> KeyOf(r.objects, x, k) == KeyOf(p.objects, x, k))
            && (forall y :: y in p.objects && y != x ==> r.objects[y] == p.objects[y]))
  {
    var found := FirstNamed(page0, SignatureFieldName, 0);
    if found.Some? {
      AddFontResourcesSpec(objs, next, catalog, fontXref, fontName);
    }
  }

  /** Step 1 on the document (python/generate_form.py:1333-1356). */
  method AddFontResourcesOn(doc: Document, fontXref: nat, fontName: string)
    requires doc.Valid()
    modifies doc
    ensures doc.Valid()
    ensures DocState(doc.objects, doc.nextXref) == AddFontResources(old(doc.objects), old(doc.nextXref), doc.catalog, fontXref, fontName)
  {
    var acroformRef := doc.GetKey(doc.catalog, "AcroForm");
    if acroformRef.kind == Dict {
      var fields := FieldsContent(acroformRef.raw);
      if fields.Some? {
        var acroform := doc.NewXref();
        doc.WriteDictionary(acroform, FontAcroForm(fields.value, fontName, fontXref));
        ghost var written := doc.objects;
        assert written == old(doc.objects)[acroform := FontAcroForm(fields.value, fontName, fontXref)];
        doc.SetKey(doc.catalog, "AcroForm", Value(Xref, RefText(acroform)));
        assert doc.objects == WithKey(written, doc.catalog, "AcroForm", Value(Xref, RefText(acroform)));
      }
    }
  }

  /** `configure_signature_font` on the document. */
  method ConfigureSignatureFont(doc: Document, page0: seq<Widget>, fontXref: nat, fontName: string, fontSize: nat)
    requires doc.Valid()
    requires forall i :: 0 <= i < |page0| ==> page0[i].xref in doc.objects
    modifies doc
    ensures doc.Valid()
    ensures DocState(doc.objects, doc.nextXref)
      == ConfigureSignature(old(doc.objects), old(doc.nextXref), doc.catalog, page0, fontXref, fontName, fontSize)
  {
    var found := FindSignatureWidget(page0);
    if found.None? {
      return;
    }
    var x := found.value.xref;
    AddFontResourcesOn(doc, fontXref, fontName);
    doc.SetKey(x, "DA", Value(String, SignatureDA(fontName, fontSize)));
    doc.SetKey(x, "AP", NullValue);
  }
}
