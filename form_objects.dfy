/**
 * The two object-graph helpers of the pass: locating (and if need be
 * promoting) the AcroForm dictionary (python/generate_form.py:420-432), and
 * renaming a widget's "on" appearance state (python/generate_form.py:465-478).
 */
module FormObjects {
  import opened Wrappers
  import opened PdfDoc
  import opened RefArray
  import Appearance

  /** The message of the `RuntimeError` raised for an AcroForm that is neither inline nor indirect. */
  function UnsupportedMessage(k: Kind): string {
    "Unsupported AcroForm reference type: " + KindName(k)
  }

  /** The outcome of `_ensure_acroform_xref`: its answer and the object table and counter after it. */
  datatype Promotion = Promotion(result: Result<nat, string>, objects: Objects, nextXref: nat)

  /**
   * `_ensure_acroform_xref` on an object table whose numbers are all below
   * `next`. An inline AcroForm is copied to the fresh object `next` and the
   * catalog repointed to it; an indirect one gives its object number;
   * anything else (a missing key reads as `null`) is the `RuntimeError`, and
   * so is nothing changed. On success the catalog's `/AcroForm` is a
   * reference that reads back as the object number answered.
   */
  function EnsureAcroForm(objs: Objects, next: nat, catalog: nat, parse: string -> Dictionary): (p: Promotion)
    requires catalog in objs && forall x :: x in objs ==> x < next
    ensures p.nextXref == next || p.nextXref == next + 1
    ensures objs.Keys <= p.objects.Keys <= objs.Keys + {next}
  {
    var v := KeyOf(objs, catalog, "AcroForm");
    if v.kind == Dict then
      Promotion(Ok(next), WithKey(objs[next := parse(v.raw)], catalog, "AcroForm", Value(Xref, RefText(next))), next + 1)
    else if v.kind == Xref && RefTarget(v.raw).Some? then
      Promotion(Ok(RefTarget(v.raw).value), objs, next)
    else if v.kind == Xref then
      Promotion(Err("invalid literal for int()"), objs, next)
    else
      Promotion(Err(UnsupportedMessage(v.kind)), objs, next)
  }

  /**
   * What `_ensure_acroform_xref` promises: the `RuntimeError` comes exactly
   * from an AcroForm that is neither inline nor a readable reference, and
   * changes nothing; on success the catalog's `/AcroForm` is a reference that
   * reads back as the object number answered; an inline AcroForm becomes the
   * fresh object `next`, holding what the inline dictionary held, and no
   * other object but the catalog changes.
   */
  lemma EnsureAcroFormSpec(objs: Objects, next: nat, catalog: nat, parse: string -> Dictionary)
    requires catalog in objs && forall x :: x in objs ==> x < next
    ensures var p := EnsureAcroForm(objs, next, catalog, parse);
      var v := KeyOf(objs, catalog, "AcroForm");
      (forall x :: x in p.objects ==> x < p.nextXref)
      && (p.result.Err? <==> (v.kind != Dict && (v.kind != Xref || RefTarget(v.raw).None?)))
      && (v.kind != Dict ==> p.objects == objs && p.nextXref == next)
      && (p.result.Ok? ==>
            (KeyOf(p.objects, catalog, "AcroForm").kind == Xref
             && RefTarget(KeyOf(p.objects, catalog, "AcroForm").raw) == Some(p.result.value)))
      && (v.kind == Dict ==>
            (p.nextXref == next + 1 && p.result == Ok(next)
             && p.objects.Keys == objs.Keys + {next}
             && p.objects[next] == parse(v.raw)
             && (forall x :: x in objs && x != catalog ==> p.objects[x] == objs[x])))
  {
    var p := EnsureAcroForm(objs, next, catalog, parse);
    var v := KeyOf(objs, catalog, "AcroForm");
    if v.kind == Dict {
      RefTextRoundTrip(next);
      assert next !in objs;
      var o := objs[next := parse(v.raw)];
      assert p.objects == WithKey(o, catalog, "AcroForm", Value(Xref, RefText(next)));
      assert p.objects[next] == o[next];
    }
  }

  /** `_ensure_acroform_xref` on the document. */
  method EnsureAcroFormXref(doc: Document) returns (r: Result<nat, string>)
    requires doc.Valid()
    modifies doc
    ensures doc.Valid()
    ensures Promotion(r, doc.objects, doc.nextXref) == EnsureAcroForm(old(doc.objects), old(doc.nextXref), doc.catalog, doc.parse)
  {
    var acroformRef := doc.GetKey(doc.catalog, "AcroForm");
    if acroformRef.kind == Dict {
      var newXref := doc.NewXref();
      doc.UpdateObject(newXref, acroformRef.raw);
      doc.SetKey(doc.catalog, "AcroForm", Value(Xref, RefText(newXref)));
      r := Ok(newXref);
      assert Promotion(r, doc.objects, doc.nextXref) == EnsureAcroForm(old(doc.objects), old(doc.nextXref), doc.catalog, doc.parse);
      return;
    }
    if acroformRef.kind == Xref {
      var target := RefTarget(acroformRef.raw);
      if target.None? {
        return Err("invalid literal for int()");
      }
      return Ok(target.value);
    }
    return Err(UnsupportedMessage(acroformRef.kind));
  }

  /** The object an indirect `/AP` points to (`int(ap_ref[1].split()[0])`), if the widget has one. */
  function ApTarget(objs: Objects, x: nat): Option<nat> {
    var ap := KeyOf(objs, x, "AP");
    if ap.kind == Xref then RefTarget(ap.raw) else None
  }

  /**
   * The object table after `_rename_widget_on_state(x, newState)`. An inline
   * `/AP` is rewritten in the widget; an indirect one is rewritten in its own
   * object; each only when the rewrite changed something. Any other `/AP`,
   * and a reference to no object, leave the table as it was.
   */
  function RenameOnState(objs: Objects, parse: string -> Dictionary, source: Dictionary -> string, x: nat, newState: string): (r: Objects)
    requires x in objs
    ensures r.Keys == objs.Keys
    ensures forall y :: y in objs && y != x && Some(y) != ApTarget(objs, x) ==> r[y] == objs[y]
  {
    var ap := KeyOf(objs, x, "AP");
    if ap.kind == Dict then
      var (updated, changed) := Appearance.ReplaceOnState(ap.raw, newState);
      if changed then WithKey(objs, x, "AP", Value(Dict, updated)) else objs
    else if ap.kind == Xref && RefTarget(ap.raw).Some? && RefTarget(ap.raw).value in objs then
      var target := RefTarget(ap.raw).value;
      var (updated, changed) := Appearance.ReplaceOnState(source(ObjectOf(objs, target)), newState);
      if changed then objs[target := parse(updated)] else objs
    else
      objs
  }

  /**
   * What the rename writes: a changed inline `/AP` is replaced in the widget
   * by the rewritten text; a changed indirect one has its object replaced by
   * the rewritten stream dictionary; and with no change reported, or an
   * `/AP` that is neither inline nor a reference to an object of the table,
   * the table is as it was.
   */
  lemma RenameOnStateSpec(objs: Objects, parse: string -> Dictionary, source: Dictionary -> string, x: nat, newState: string)
    requires x in objs
    ensures var r := RenameOnState(objs, parse, source, x, newState);
      var ap := KeyOf(objs, x, "AP");
      ap.kind == Dict && Appearance.ReplaceOnState(ap.raw, newState).1 ==>
        KeyOf(r, x, "AP") == Value(Dict, Appearance.ReplaceOnState(ap.raw, newState).0)
    ensures var r := RenameOnState(objs, parse, source, x, newState);
      var t := ApTarget(objs, x);
      t.Some? && t.value in objs && Appearance.ReplaceOnState(source(objs[t.value]), newState).1 ==>
        r[t.value] == parse(Appearance.ReplaceOnState(source(objs[t.value]), newState).0)
    ensures var r := RenameOnState(objs, parse, source, x, newState);
      var ap := KeyOf(objs, x, "AP");
      var t := ApTarget(objs, x);
      (ap.kind == Dict && !Appearance.ReplaceOnState(ap.raw, newState).1)
      || (ap.kind != Dict && (t.None? || t.value !in objs || !Appearance.ReplaceOnState(source(objs[t.value]), newState).1))
      ==> r == objs
  {
  }

  /**
   * Renaming touches the widget only through `/AP`: every other key of the
   * widget, and the indirect `/AP` reference itself, stay as they were,
   * unless the `/AP` reference points back at the widget.
   */
  lemma RenameKeepsOtherKeys(objs: Objects, parse: string -> Dictionary, source: Dictionary -> string, x: nat, newState: string)
    requires x in objs && ApTarget(objs, x) != Some(x)
    ensures var r := RenameOnState(objs, parse, source, x, newState);
      (forall k :: k != "AP" ==> KeyOf(r, x, k) == KeyOf(objs, x, k))
      && ApTarget(r, x) == ApTarget(objs, x)
  {
  }

  /** `_rename_widget_on_state` on the document. */
  method RenameWidgetOnState(doc: Document, widgetXref: nat, newState: string)
    requires widgetXref in doc.objects
    modifies doc
    ensures doc.objects == RenameOnState(old(doc.objects), doc.parse, doc.source, widgetXref, newState)
    ensures doc.nextXref == old(doc.nextXref)
  {
    var apRef := doc.GetKey(widgetXref, "AP");
    if apRef.kind == Dict {
      var (updated, changed) := Appearance.ReplaceOnState(apRef.raw, newState);
      if changed {
        doc.SetKey(widgetXref, "AP", Value(Dict, updated));
      }
    } else if apRef.kind == Xref {
      var target := RefTarget(apRef.raw);
      if target.Some? && target.value in doc.objects {
        var apXref := target.value;
        var (updated, changed) := Appearance.ReplaceOnState(doc.XrefObject(apXref), newState);
        if changed {
          doc.UpdateObject(apXref, updated);
        }
      }
    }
  }
}
