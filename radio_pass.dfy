/**
 * `fix_radio_button_groups` as it runs on a document (python/generate_form.py:506-633):
 * the same steps as `RadioGroups.FixRadioGroups`, written as the loops and
 * `xref_set_key` / `update_object` calls of the source, each proved to leave
 * the document as that function says.
 */
module RadioPass {
  import opened Wrappers
  import opened RefArray
  import opened Sorting
  import opened PdfDoc
  import opened FormObjects
  import opened Updates
  import opened Matching
  import opened RadioGroups

  /** The six `xref_set_key` calls on one child (python/generate_form.py:625-630). */
  method SetChildKeysOn(doc: Document, x: nat, parentRef: string)
    requires x in doc.objects
    modifies doc
    ensures doc.objects == old(doc.objects)[x := ChildDict(old(doc.objects)[x], parentRef)]
    ensures doc.nextXref == old(doc.nextXref)
  {
    ghost var o0 := doc.objects;
    doc.SetKey(x, "Parent", Value(Xref, parentRef));
    ghost var o1 := doc.objects;
    doc.SetKey(x, "T", NullValue);
    ghost var o2 := doc.objects;
    doc.SetKey(x, "V", NullValue);
    ghost var o3 := doc.objects;
    doc.SetKey(x, "DV", NullValue);
    ghost var o4 := doc.objects;
    doc.SetKey(x, "Kids", NullValue);
    ghost var o5 := doc.objects;
    doc.SetKey(x, "AS", Value(Name, "/Off"));
    ChildKeysSteps(o0, o1, o2, o3, o4, o5, doc.objects, x, parentRef);
  }

  /** One pass of the children loop (python/generate_form.py:621-630). */
  method RewriteChildOn(doc: Document, m: Member, parentRef: string)
    requires m.widget.xref in doc.objects
    modifies doc
    ensures doc.objects == RewriteChild(old(doc.objects), doc.parse, doc.source, m, parentRef)
    ensures doc.nextXref == old(doc.nextXref)
  {
    var x := m.widget.xref;
    if m.entry.exportName != "" {
      RenameWidgetOnState(doc, x, m.entry.exportName);
    }
    SetChildKeysOn(doc, x, parentRef);
  }

  /** The children loop over the sorted members (python/generate_form.py:621-630). */
  method RewriteChildren(doc: Document, sorted: seq<Member>, parentRef: string)
    requires forall i :: 0 <= i < |sorted| ==> sorted[i].widget.xref in doc.objects
    modifies doc
    ensures doc.objects == RewriteAll(old(doc.objects), doc.parse, doc.source, sorted, parentRef)
    ensures doc.nextXref == old(doc.nextXref)
  {
    var j := 0;
    while j < |sorted|
      invariant j <= |sorted|
      invariant doc.objects == RewriteAll(old(doc.objects), doc.parse, doc.source, sorted[..j], parentRef)
      invariant doc.nextXref == old(doc.nextXref)
    {
      ghost var before := doc.objects;
      RewriteChildOn(doc, sorted[j], parentRef);
      assert sorted[..j + 1][..j] == sorted[..j] && sorted[..j + 1][j] == sorted[j];
      j := j + 1;
    }
    assert sorted[..|sorted|] == sorted;
  }

  /** `remove_refs`: the children's references, then each indirect `/Parent` (python/generate_form.py:586-591). */
  method GroupRemoveRefs(doc: Document, sorted: seq<Member>) returns (remove: set<string>)
    ensures remove == RemoveRefs(doc.objects, sorted)
  {
    remove := set r | r in ChildRefs(sorted);
    var i := 0;
    while i < |sorted|
      invariant i <= |sorted|
      invariant remove == (set r | r in ChildRefs(sorted)) + ParentRefs(doc.objects, sorted[..i])
    {
      var parent := doc.GetKey(sorted[i].widget.xref, "Parent");
      if parent.kind == Xref {
        remove := remove + {parent.raw};
      }
      assert sorted[..i + 1][..i] == sorted[..i] && sorted[..i + 1][i] == sorted[i];
      i := i + 1;
    }
    assert sorted[..|sorted|] == sorted;
  }

  /** The body of the loop over `groups` for a group with members (python/generate_form.py:577-630). */
  method BuildGroup(doc: Document, name: string, items: seq<Member>, fields: seq<string>) returns (fields': seq<string>)
    requires doc.Valid() && items != []
    requires forall i :: 0 <= i < |items| ==> items[i].widget.xref in doc.objects
    modifies doc
    ensures doc.Valid()
    ensures BuildOne(Built(old(doc.objects), old(doc.nextXref), fields, false), doc.parse, doc.source, name, items)
      == Built(doc.objects, doc.nextXref, fields', true)
  {
    ghost var s := Built(doc.objects, doc.nextXref, fields, false);
    var sorted := SortBy(items, GroupKey);
    SortKeepsMembers(items, doc.objects);
    var remove := GroupRemoveRefs(doc, sorted);
    var parentXref := doc.NewXref();
    var parentRef := RefText(parentXref);
    fields' := Splice(fields, remove, parentRef);
    var first := sorted[0].widget;
    var da := doc.GetKey(first.xref, "DA");
    var parent := ParentDict(name, first.flags, ChildRefs(sorted), da);
    doc.WriteDictionary(parentXref, parent);
    ParentWritten(s.objects, s.nextXref, name, sorted, doc.objects);
    RewriteChildren(doc, sorted, parentRef);
    BuildOneSteps(s, doc.parse, doc.source, name, items, sorted, doc.objects);
  }

  /** A group with members is built the same whether or not a group before it was. */
  lemma BuildOneIgnoresFlag(s: Built, parse: string -> Dictionary, source: Dictionary -> string, name: string, items: seq<Member>)
    requires Counted(s.objects, s.nextXref) && items != []
    requires forall i :: 0 <= i < |items| ==> items[i].widget.xref in s.objects
    ensures BuildOne(s, parse, source, name, items) == BuildOne(s.(modified := false), parse, source, name, items)
  {
  }

  /** One pass of the loop over `groups` (python/generate_form.py:573-630): a group with no members is skipped. */
  method BuildNext(doc: Document, groups: Groups, k: nat, fields: seq<string>, modified: bool) returns (fields': seq<string>, modified': bool)
    requires k < |groups.names| && doc.Valid() && Ready(groups, Built(doc.objects, doc.nextXref, fields, modified))
    modifies doc
    ensures doc.Valid() && old(doc.objects).Keys <= doc.objects.Keys
    ensures Ready(groups, Built(doc.objects, doc.nextXref, fields', modified'))
    ensures BuildFrom(Built(doc.objects, doc.nextXref, fields', modified'), doc.parse, doc.source, groups, k + 1)
      == BuildFrom(Built(old(doc.objects), old(doc.nextXref), fields, modified), doc.parse, doc.source, groups, k)
  {
    ghost var b := Built(doc.objects, doc.nextXref, fields, modified);
    BuildFromNext(b, doc.parse, doc.source, groups, k);
    fields', modified' := fields, modified;
    var name := groups.names[k];
    var items := groups.members[name];
    if items != [] {
      BuildOneIgnoresFlag(b, doc.parse, doc.source, name, items);
      fields' := BuildGroup(doc, name, items, fields);
      modified' := true;
    }
  }

  /** The loop over `groups` (python/generate_form.py:572-630). */
  method BuildGroups(doc: Document, groups: Groups, fields: seq<string>) returns (fields': seq<string>, modified: bool)
    requires doc.Valid() && Ready(groups, Built(doc.objects, doc.nextXref, fields, false))
    modifies doc
    ensures doc.Valid() && old(doc.objects).Keys <= doc.objects.Keys
    ensures Built(doc.objects, doc.nextXref, fields', modified)
      == BuildFrom(Built(old(doc.objects), old(doc.nextXref), fields, false), doc.parse, doc.source, groups, 0)
  {
    ghost var s := Built(doc.objects, doc.nextXref, fields, false);
    fields', modified := fields, false;
    var k := 0;
    while k < |groups.names|
      invariant k <= |groups.names| && doc.Valid() && s.objects.Keys <= doc.objects.Keys
      invariant Ready(groups, Built(doc.objects, doc.nextXref, fields', modified))
      invariant BuildFrom(Built(doc.objects, doc.nextXref, fields', modified), doc.parse, doc.source, groups, k)
        == BuildFrom(s, doc.parse, doc.source, groups, 0)
    {
      fields', modified := BuildNext(doc, groups, k, fields', modified);
      k := k + 1;
    }
  }

  /** The pass once the AcroForm object is known (python/generate_form.py:539-633). */
  method GroupPassOn(doc: Document, acroform: nat, pool: Pool, widgets: seq<Widget>)
    requires doc.Valid() && acroform in doc.objects && ValidPool(pool)
    requires forall i :: 0 <= i < |widgets| ==> widgets[i].xref in doc.objects
    modifies doc
    ensures doc.Valid()
    ensures DocState(doc.objects, doc.nextXref) == GroupPass(old(doc.objects), old(doc.nextXref), acroform, doc.parse, doc.source, pool, widgets)
  {
    var fieldsRef := doc.GetKey(acroform, "Fields");
    var fields := if fieldsRef.kind == Array then ParseRefArray(fieldsRef.raw) else [];
    assert fields == FieldsEntries(doc.objects, acroform);
    var groups, left := AssignWidgets(widgets, pool);
    GroupsReady(widgets, pool, doc.objects);
    var modified;
    fields, modified := BuildGroups(doc, groups, fields);
    ghost var built := doc.objects;
    if modified {
      doc.SetKey(acroform, "Fields", Value(Array, FormatRefArray(fields)));
      assert doc.objects == WithKey(built, acroform, "Fields", Value(Array, FormatRefArray(fields)));
    }
  }

  /**
   * `fix_radio_button_groups(doc, updates)`, with `widgets` the widgets of
   * every page in page order (python/generate_form.py:506-633).
   */
  method FixRadioButtonGroups(doc: Document, updates: seq<RawUpdate>, widgets: seq<Widget>)
    requires doc.Valid()
    requires forall i :: 0 <= i < |widgets| ==> widgets[i].xref in doc.objects
    modifies doc
    ensures doc.Valid()
    ensures DocState(doc.objects, doc.nextXref)
      == FixRadioGroups(old(doc.objects), old(doc.nextXref), doc.catalog, doc.parse, doc.source, updates, widgets)
  {
    if updates == [] {
      return;
    }
    var pool := BucketUpdates(updates);
    PoolIsPoolOf(updates, pool);
    var found := EnsureAcroFormXref(doc);
    if found.Err? || found.value !in doc.objects {
      return;
    }
    GroupPassOn(doc, found.value, pool, widgets);
  }
}
