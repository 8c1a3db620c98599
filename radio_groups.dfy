/**
 * Building the radio groups (python/generate_form.py:573-633): for each group
 * the members are sorted, the AcroForm's `Fields` array is spliced so that a
 * new parent field replaces the members and their old parents, the parent
 * field object is written, and each member becomes a kid of it.
 */
module RadioGroups {
  import opened Wrappers
  import opened Text
  import opened RefArray
  import opened Sorting
  import opened PdfDoc
  import opened FormObjects
  import opened Updates
  import opened Matching
  import Tables

  /** `[ref for ref in fields_entries if ref not in remove_refs]` */
  function Kept(fields: seq<string>, remove: set<string>): (r: seq<string>)
    ensures |r| <= |fields|
  {
    if fields == [] then []
    else (if fields[0] in remove then [] else [fields[0]]) + Kept(fields[1..], remove)
  }

  /** The first position at or after `i` whose reference is to be removed. */
  function FirstIn(fields: seq<string>, remove: set<string>, i: nat): (r: Option<nat>)
    requires i <= |fields|
    ensures r.Some? ==> i <= r.value < |fields| && fields[r.value] in remove
    decreases |fields| - i
  {
    if i == |fields| then None
    else if fields[i] in remove then Some(i)
    else FirstIn(fields, remove, i + 1)
  }

  /** `insert_at`: the earliest removed position, or the length when nothing is removed. */
  function InsertIndex(fields: seq<string>, remove: set<string>): (r: nat)
    ensures r <= |fields|
  {
    match FirstIn(fields, remove, 0)
    case Some(i) => i
    case None => |fields|
  }

  /** `list.insert(i, x)` for a non-negative `i`: an index past the end appends. */
  function InsertAt(xs: seq<string>, i: nat, x: string): (r: seq<string>)
    ensures |r| == |xs| + 1
  {
    if i >= |xs| then xs + [x] else xs[..i] + [x] + xs[i..]
  }

  /** Inserting at a position within the list: the new entry sits there and the rest keep their order. */
  lemma InsertAtSpec(xs: seq<string>, i: nat, x: string)
    requires i <= |xs|
    ensures var r := InsertAt(xs, i, x);
      r[i] == x && r[..i] == xs[..i] && r[..i] + r[i + 1..] == xs
      && forall y :: y in r ==> y == x || y in xs
  {
    var r := InsertAt(xs, i, x);
    if i == |xs| {
      assert r[..i] == xs;
    } else {
      assert r[..i] == xs[..i];
      assert r[i + 1..] == xs[i..];
    }
    assert xs[..i] + xs[i..] == xs;
    assert r == r[..i] + [x] + r[i + 1..];
  }

  /** `fields_entries` after one group (python/generate_form.py:596-600). */
  function Splice(fields: seq<string>, remove: set<string>, parentRef: string): seq<string> {
    InsertAt(Kept(fields, remove), InsertIndex(fields, remove), parentRef)
  }

  /** `Kept` keeps exactly the references not to be removed. */
  lemma {:induction false} KeptMembers(fields: seq<string>, remove: set<string>)
    ensures forall r :: r in Kept(fields, remove) <==> r in fields && r !in remove
    decreases |fields|
  {
    if fields != [] {
      KeptMembers(fields[1..], remove);
      assert fields == [fields[0]] + fields[1..];
    }
  }

  /** A prefix with nothing to remove passes through unchanged. */
  lemma {:induction false} KeptPrefix(fields: seq<string>, remove: set<string>, i: nat)
    requires i <= |fields|
    requires forall j :: 0 <= j < i ==> fields[j] !in remove
    ensures Kept(fields, remove) == fields[..i] + Kept(fields[i..], remove)
    decreases i
  {
    if i > 0 {
      KeptPrefix(fields[1..], remove, i - 1);
      assert fields[1..][..i - 1] == fields[1..i];
      assert fields[1..][i - 1..] == fields[i..];
      assert fields[..i] == [fields[0]] + fields[1..i];
    }
  }

  lemma {:induction false} FirstInIsFirst(fields: seq<string>, remove: set<string>, i: nat)
    requires i <= |fields|
    ensures FirstIn(fields, remove, i).Some? ==>
      forall j :: i <= j < FirstIn(fields, remove, i).value ==> fields[j] !in remove
    ensures FirstIn(fields, remove, i).None? ==> forall j :: i <= j < |fields| ==> fields[j] !in remove
    decreases |fields| - i
  {
    if i < |fields| && fields[i] !in remove {
      FirstInIsFirst(fields, remove, i + 1);
    }
  }

  /**
   * The splice of one group: no reference to be removed is left; the new
   * parent sits at the position of the earliest removed reference, or at the
   * end when none was present; everything before that position is as it
   * was; and taking the parent out again gives the other references in their
   * original order.
   */
  lemma SpliceSpec(fields: seq<string>, remove: set<string>, parentRef: string)
    requires parentRef !in remove
    ensures var r := Splice(fields, remove, parentRef);
      var at := InsertIndex(fields, remove);
      (forall x :: x in r ==> x !in remove)
      && at < |r| && r[at] == parentRef
      && r[..at] == fields[..at]
      && r[..at] + r[at + 1..] == Kept(fields, remove)
      && (FirstIn(fields, remove, 0).None? ==> r == fields + [parentRef])
  {
    var kept := Kept(fields, remove);
    var at := InsertIndex(fields, remove);
    KeptMembers(fields, remove);
    FirstInIsFirst(fields, remove, 0);
    KeptPrefix(fields, remove, at);
    if FirstIn(fields, remove, 0).None? {
      assert fields[at..] == [];
      assert kept == fields;
    }
    InsertAtSpec(kept, at, parentRef);
    assert kept[..at] == fields[..at];
  }

  // ---- The group's children and the references to drop (python/generate_form.py:577-591)

  /** The sort key of a group member: order, then top edge, then left edge, then object number. */
  function GroupKey(m: Member): SortKey {
    SortKey(m.entry.order, m.widget.rect.y0, m.widget.rect.x0, m.widget.xref)
  }

  /** `child_refs` */
  function ChildRefs(ms: seq<Member>): (r: seq<string>)
    ensures |r| == |ms|
  {
    seq(|ms|, i requires 0 <= i < |ms| => RefText(ms[i].widget.xref))
  }

  /** The `/Parent` references of the members, as the loop at python/generate_form.py:588-591 collects them. */
  function ParentRefs(objs: Objects, ms: seq<Member>): set<string> {
    if ms == [] then {}
    else
      var v := KeyOf(objs, ms[|ms| - 1].widget.xref, "Parent");
      ParentRefs(objs, ms[..|ms| - 1]) + (if v.kind == Xref then {v.raw} else {})
  }

  /** `remove_refs` */
  function RemoveRefs(objs: Objects, ms: seq<Member>): set<string> {
    (set r | r in ChildRefs(ms)) + ParentRefs(objs, ms)
  }

  /** The children's references are reference tokens, each naming its child. */
  lemma ChildRefsAreRefs(ms: seq<Member>)
    ensures AllRefs(ChildRefs(ms))
    ensures forall i :: 0 <= i < |ms| ==> RefTarget(ChildRefs(ms)[i]) == Some(ms[i].widget.xref)
  {
    var refs := ChildRefs(ms);
    forall i | 0 <= i < |ms|
      ensures IsRef(refs[i]) && RefTarget(refs[i]) == Some(ms[i].widget.xref)
    {
      RefTextRoundTrip(ms[i].widget.xref);
    }
    AllRefsAt(refs);
  }

  lemma {:induction false} AllRefsAt(refs: seq<string>)
    requires forall i :: 0 <= i < |refs| ==> IsRef(refs[i])
    ensures AllRefs(refs)
    decreases |refs|
  {
    if refs != [] {
      AllRefsAt(refs[1..]);
    }
  }

  /** A reference is collected exactly when some member has it as an indirect `/Parent`. */
  lemma {:induction false} ParentRefsSpec(objs: Objects, ms: seq<Member>)
    ensures forall r :: r in ParentRefs(objs, ms) <==>
      exists i :: 0 <= i < |ms| && KeyOf(objs, ms[i].widget.xref, "Parent") == Value(Xref, r)
    decreases |ms|
  {
    if ms != [] {
      var init := ms[..|ms| - 1];
      ParentRefsSpec(objs, init);
      forall r
        ensures r in ParentRefs(objs, ms) <==>
          exists i :: 0 <= i < |ms| && KeyOf(objs, ms[i].widget.xref, "Parent") == Value(Xref, r)
      {
        if r in ParentRefs(objs, init) {
          var i :| 0 <= i < |init| && KeyOf(objs, init[i].widget.xref, "Parent") == Value(Xref, r);
          assert ms[i] == init[i];
        }
        if exists i :: 0 <= i < |ms| && KeyOf(objs, ms[i].widget.xref, "Parent") == Value(Xref, r) {
          var i :| 0 <= i < |ms| && KeyOf(objs, ms[i].widget.xref, "Parent") == Value(Xref, r);
          if i < |init| {
            assert ms[i] == init[i];
          }
        }
      }
    }
  }

  // ---- The parent field (python/generate_form.py:602-618)

  /**
   * The dictionary that the text `<< /FT /Btn /T (name) /Ff flags /Kids [...]
   * /V /Off /DV /Off [/DA (da)] >>` denotes, as `xref_get_key` reads it back.
   */
  function ParentDict(name: string, flags: nat, kids: seq<string>, da: Value): Dictionary {
    map["FT" := Value(Name, "/Btn"), "T" := Value(String, name), "Ff" := Value(Int, NatToString(flags)),
        "Kids" := Value(Array, FormatRefArray(kids)), "V" := Value(Name, "/Off"), "DV" := Value(Name, "/Off")]
    + (if da.kind == String && da.raw != "" then map["DA" := da] else map[])
  }

  /**
   * The parent is a button field named after the group, off by default, with
   * the first child's flags; its `/Kids` reads back as exactly the children's
   * references in order, its `/Ff` as the flags, and it has a `/DA` exactly
   * when the first child had a non-empty string one.
   */
  lemma ParentDictSpec(name: string, flags: nat, kids: seq<string>, da: Value)
    requires AllRefs(kids)
    ensures var d := ParentDict(name, flags, kids, da);
      d["FT"] == Value(Name, "/Btn") && d["T"] == Value(String, name)
      && d["V"] == Value(Name, "/Off") && d["DV"] == Value(Name, "/Off")
      && d["Ff"].kind == Int && ParseNat(d["Ff"].raw) == flags
      && d["Kids"].kind == Array && ParseRefArray(d["Kids"].raw) == kids
      && ("DA" in d <==> da.kind == String && da.raw != "")
      && ("DA" in d ==> d["DA"] == da)
      && d.Keys <= {"FT", "T", "Ff", "Kids", "V", "DV", "DA"}
  {
    FormatThenParse(kids);
    ParseNatToString(flags);
  }

  // ---- The children (python/generate_form.py:621-630)

  /** The keys every child has set. */
  const ChildKeys: set<string> := {"Parent", "T", "V", "DV", "Kids", "AS"}

  /** A child's keys as the six `xref_set_key` calls leave them. */
  ghost predicate ChildKeysSet(objs: Objects, x: nat, parentRef: string) {
    KeyOf(objs, x, "Parent") == Value(Xref, parentRef)
    && KeyOf(objs, x, "T") == NullValue && KeyOf(objs, x, "V") == NullValue
    && KeyOf(objs, x, "DV") == NullValue && KeyOf(objs, x, "Kids") == NullValue
    && KeyOf(objs, x, "AS") == Value(Name, "/Off")
  }

  /** A child's dictionary after the six `xref_set_key` calls. */
  function ChildDict(d: Dictionary, parentRef: string): Dictionary {
    var d1 := SetEntry(d, "Parent", Value(Xref, parentRef));
    var d2 := SetEntry(d1, "T", NullValue);
    var d3 := SetEntry(d2, "V", NullValue);
    var d4 := SetEntry(d3, "DV", NullValue);
    var d5 := SetEntry(d4, "Kids", NullValue);
    SetEntry(d5, "AS", Value(Name, "/Off"))
  }

  /** The six `xref_set_key` calls one after the other give `ChildDict`. */
  lemma ChildKeysSteps(o0: Objects, o1: Objects, o2: Objects, o3: Objects, o4: Objects, o5: Objects, o6: Objects, x: nat, parentRef: string)
    requires x in o0
    requires o1 == o0[x := SetEntry(o0[x], "Parent", Value(Xref, parentRef))]
    requires o2 == o1[x := SetEntry(o1[x], "T", NullValue)]
    requires o3 == o2[x := SetEntry(o2[x], "V", NullValue)]
    requires o4 == o3[x := SetEntry(o3[x], "DV", NullValue)]
    requires o5 == o4[x := SetEntry(o4[x], "Kids", NullValue)]
    requires o6 == o5[x := SetEntry(o5[x], "AS", Value(Name, "/Off"))]
    ensures o6 == o0[x := ChildDict(o0[x], parentRef)]
  {
  }

  /** The six `xref_set_key` calls on one child. */
  function SetChildKeys(objs: Objects, x: nat, parentRef: string): (r: Objects)
    requires x in objs
    ensures r.Keys == objs.Keys
  {
    objs[x := ChildDict(objs[x], parentRef)]
  }

  lemma SetChildKeysSpec(objs: Objects, x: nat, parentRef: string)
    requires x in objs
    ensures ChildKeysSet(SetChildKeys(objs, x, parentRef), x, parentRef)
    ensures forall k :: k !in ChildKeys ==> KeyOf(SetChildKeys(objs, x, parentRef), x, k) == KeyOf(objs, x, k)
  {
    var d := ChildDict(objs[x], parentRef);
    assert SetChildKeys(objs, x, parentRef)[x] == d;
    assert d == (objs[x] - {"T", "V", "DV", "Kids"})["Parent" := Value(Xref, parentRef)]["AS" := Value(Name, "/Off")];
  }

  /** The appearance rename, done only for a record with an export name. */
  function Renamed(objs: Objects, parse: string -> Dictionary, source: Dictionary -> string, m: Member): (r: Objects)
    requires m.widget.xref in objs
    ensures r.Keys == objs.Keys
  {
    if m.entry.exportName != "" then RenameOnState(objs, parse, source, m.widget.xref, m.entry.exportName) else objs
  }

  /** One pass of the loop at python/generate_form.py:621-630. */
  function RewriteChild(objs: Objects, parse: string -> Dictionary, source: Dictionary -> string, m: Member, parentRef: string): (r: Objects)
    requires m.widget.xref in objs
    ensures r.Keys == objs.Keys
  {
    SetChildKeys(Renamed(objs, parse, source, m), m.widget.xref, parentRef)
  }

  /** Rewriting a child changes no object but the child and the target of its `/AP`. */
  lemma RewriteChildFrame(objs: Objects, parse: string -> Dictionary, source: Dictionary -> string, m: Member, parentRef: string, y: nat)
    requires m.widget.xref in objs && y in objs
    requires y != m.widget.xref && Some(y) != ApTarget(objs, m.widget.xref)
    ensures RewriteChild(objs, parse, source, m, parentRef)[y] == objs[y]
  {
    assert Renamed(objs, parse, source, m)[y] == objs[y];
  }

  /** The loop at python/generate_form.py:621-630 over the sorted members. */
  function RewriteAll(objs: Objects, parse: string -> Dictionary, source: Dictionary -> string, ms: seq<Member>, parentRef: string): (r: Objects)
    requires forall i :: 0 <= i < |ms| ==> ms[i].widget.xref in objs
    ensures r.Keys == objs.Keys
  {
    if ms == [] then objs
    else
      var o := RewriteAll(objs, parse, source, ms[..|ms| - 1], parentRef);
      RewriteChild(o, parse, source, ms[|ms| - 1], parentRef)
  }

  /**
   * The children are distinct objects of the table, and no child's indirect
   * `/AP` names a child.
   */
  ghost predicate Separate(objs: Objects, ms: seq<Member>) {
    (forall i :: 0 <= i < |ms| ==> ms[i].widget.xref in objs)
    && (forall i, j :: 0 <= i < j < |ms| ==> ms[i].widget.xref != ms[j].widget.xref)
    && (forall i, j :: 0 <= i < |ms| && 0 <= j < |ms| ==> ApTarget(objs, ms[i].widget.xref) != Some(ms[j].widget.xref))
  }

  /**
   * A child after the loop: the six keys are set, its `/AP` is what the
   * rename of the original widget gives (the original one when the record has
   * no export name), and every other key is as it was.
   */
  ghost predicate ChildDone(objs: Objects, r: Objects, parse: string -> Dictionary, source: Dictionary -> string, m: Member, parentRef: string)
    requires m.widget.xref in objs
  {
    var x := m.widget.xref;
    ChildKeysSet(r, x, parentRef)
    && KeyOf(r, x, "AP") == KeyOf(Renamed(objs, parse, source, m), x, "AP")
    && (forall k :: k !in ChildKeys && k != "AP" ==> KeyOf(r, x, k) == KeyOf(objs, x, k))
  }

  /**
   * The target of a child's indirect `/AP` after the loop: it holds what the
   * rename of the original widget writes there (python/generate_form.py:473-478).
   */
  ghost predicate TargetDone(objs: Objects, r: Objects, parse: string -> Dictionary, source: Dictionary -> string, m: Member)
    requires m.widget.xref in objs
  {
    var t := ApTarget(objs, m.widget.xref);
    t.Some? && t.value in objs ==> t.value in r && r[t.value] == Renamed(objs, parse, source, m)[t.value]
  }

  /** No other child's `/AP` names the same target as the i-th child's. */
  ghost predicate SoleTarget(objs: Objects, ms: seq<Member>, i: nat)
    requires i < |ms|
  {
    forall j :: 0 <= j < |ms| && j != i ==> ApTarget(objs, ms[j].widget.xref) != ApTarget(objs, ms[i].widget.xref)
  }

  /** An object that is neither a child nor the target of a child's `/AP`. */
  ghost predicate Untouched(objs: Objects, ms: seq<Member>, y: nat) {
    forall i :: 0 <= i < |ms| ==> y != ms[i].widget.xref && ApTarget(objs, ms[i].widget.xref) != Some(y)
  }

  /** The rename's effect on the widget's own `/AP` depends only on the widget's object. */
  lemma RenameAtWidget(o: Objects, objs: Objects, parse: string -> Dictionary, source: Dictionary -> string, m: Member)
    requires m.widget.xref in o && m.widget.xref in objs && o[m.widget.xref] == objs[m.widget.xref]
    requires ApTarget(objs, m.widget.xref) != Some(m.widget.xref)
    ensures KeyOf(Renamed(o, parse, source, m), m.widget.xref, "AP") == KeyOf(Renamed(objs, parse, source, m), m.widget.xref, "AP")
    ensures forall k :: k != "AP" ==> KeyOf(Renamed(o, parse, source, m), m.widget.xref, k) == KeyOf(objs, m.widget.xref, k)
  {
    var x := m.widget.xref;
    assert KeyOf(o, x, "AP") == KeyOf(objs, x, "AP");
    if m.entry.exportName != "" {
      RenameKeepsOtherKeys(o, parse, source, x, m.entry.exportName);
      RenameKeepsOtherKeys(objs, parse, source, x, m.entry.exportName);
    }
  }

  /** Rewriting one child whose object is still as it was in `objs`. */
  lemma RewriteChildDone(objs: Objects, o: Objects, parse: string -> Dictionary, source: Dictionary -> string, m: Member, parentRef: string)
    requires m.widget.xref in o && m.widget.xref in objs && o[m.widget.xref] == objs[m.widget.xref]
    requires ApTarget(objs, m.widget.xref) != Some(m.widget.xref)
    ensures ChildDone(objs, RewriteChild(o, parse, source, m, parentRef), parse, source, m, parentRef)
  {
    RenameAtWidget(o, objs, parse, source, m);
    SetChildKeysSpec(Renamed(o, parse, source, m), m.widget.xref, parentRef);
  }

  /** `ChildDone` depends only on the child's object in the table after. */
  lemma ChildDoneFrame(objs: Objects, r: Objects, r': Objects, parse: string -> Dictionary, source: Dictionary -> string, m: Member, parentRef: string)
    requires m.widget.xref in objs && m.widget.xref in r && m.widget.xref in r' && r[m.widget.xref] == r'[m.widget.xref]
    requires ChildDone(objs, r, parse, source, m, parentRef)
    ensures ChildDone(objs, r', parse, source, m, parentRef)
  {
    var x := m.widget.xref;
    assert forall k :: KeyOf(r', x, k) == KeyOf(r, x, k);
  }

  /** The last child's object is untouched by the rewrites of the children before it. */
  lemma {:induction false} RewriteAllFrame(objs: Objects, parse: string -> Dictionary, source: Dictionary -> string, ms: seq<Member>, parentRef: string, y: nat)
    requires Separate(objs, ms) && y in objs && Untouched(objs, ms, y)
    ensures RewriteAll(objs, parse, source, ms, parentRef)[y] == objs[y]
    decreases |ms|
  {
    if ms != [] {
      var init := ms[..|ms| - 1];
      var x := ms[|ms| - 1].widget.xref;
      assert Separate(objs, init) && Untouched(objs, init, y) && Untouched(objs, init, x);
      RewriteAllFrame(objs, parse, source, init, parentRef, y);
      RewriteAllFrame(objs, parse, source, init, parentRef, x);
      var o := RewriteAll(objs, parse, source, init, parentRef);
      assert ApTarget(o, x) == ApTarget(objs, x);
      RewriteChildFrame(o, parse, source, ms[|ms| - 1], parentRef, y);
    }
  }

  /** The last child is rewritten on a table where its object is still as it was. */
  lemma RewriteAllLast(objs: Objects, parse: string -> Dictionary, source: Dictionary -> string, ms: seq<Member>, parentRef: string)
    requires Separate(objs, ms) && ms != []
    ensures var init := ms[..|ms| - 1];
      var x := ms[|ms| - 1].widget.xref;
      var o := RewriteAll(objs, parse, source, init, parentRef);
      Separate(objs, init) && x in o && o[x] == objs[x] && ApTarget(o, x) == ApTarget(objs, x)
      && RewriteAll(objs, parse, source, ms, parentRef) == RewriteChild(o, parse, source, ms[|ms| - 1], parentRef)
  {
    var init := ms[..|ms| - 1];
    var x := ms[|ms| - 1].widget.xref;
    assert Separate(objs, init) && Untouched(objs, init, x);
    RewriteAllFrame(objs, parse, source, init, parentRef, x);
  }

  /** Each child ends as `ChildDone` describes. */
  lemma {:induction false} RewriteAllDone(objs: Objects, parse: string -> Dictionary, source: Dictionary -> string, ms: seq<Member>, parentRef: string, i: nat)
    requires Separate(objs, ms) && i < |ms|
    ensures ChildDone(objs, RewriteAll(objs, parse, source, ms, parentRef), parse, source, ms[i], parentRef)
    decreases |ms|
  {
    var init := ms[..|ms| - 1];
    var m := ms[|ms| - 1];
    RewriteAllLast(objs, parse, source, ms, parentRef);
    var o := RewriteAll(objs, parse, source, init, parentRef);
    if i == |ms| - 1 {
      RewriteChildDone(objs, o, parse, source, m, parentRef);
    } else {
      assert ms[i] == init[i];
      RewriteAllDone(objs, parse, source, init, parentRef, i);
      RewriteChildFrame(o, parse, source, m, parentRef, ms[i].widget.xref);
      ChildDoneFrame(objs, o, RewriteChild(o, parse, source, m, parentRef), parse, source, ms[i], parentRef);
    }
  }

  /** The rename's effect on the target of the widget's `/AP` depends only on the widget's and the target's objects. */
  lemma RenameAtTarget(o: Objects, objs: Objects, parse: string -> Dictionary, source: Dictionary -> string, m: Member)
    requires m.widget.xref in o && m.widget.xref in objs && o[m.widget.xref] == objs[m.widget.xref]
    requires ApTarget(objs, m.widget.xref).Some? && m.widget.xref != ApTarget(objs, m.widget.xref).value
    requires ApTarget(objs, m.widget.xref).value in o && ApTarget(objs, m.widget.xref).value in objs
    requires o[ApTarget(objs, m.widget.xref).value] == objs[ApTarget(objs, m.widget.xref).value]
    ensures Renamed(o, parse, source, m)[ApTarget(objs, m.widget.xref).value] == Renamed(objs, parse, source, m)[ApTarget(objs, m.widget.xref).value]
  {
    assert KeyOf(o, m.widget.xref, "AP") == KeyOf(objs, m.widget.xref, "AP");
  }

  /** Rewriting a child writes its rename's target object, whatever the table holds elsewhere. */
  lemma RewriteChildAtTarget(o: Objects, objs: Objects, parse: string -> Dictionary, source: Dictionary -> string, m: Member, parentRef: string)
    requires m.widget.xref in o && m.widget.xref in objs && o[m.widget.xref] == objs[m.widget.xref]
    requires ApTarget(objs, m.widget.xref).Some? && m.widget.xref != ApTarget(objs, m.widget.xref).value
    requires ApTarget(objs, m.widget.xref).value in o && ApTarget(objs, m.widget.xref).value in objs
    requires o[ApTarget(objs, m.widget.xref).value] == objs[ApTarget(objs, m.widget.xref).value]
    ensures RewriteChild(o, parse, source, m, parentRef)[ApTarget(objs, m.widget.xref).value]
         == Renamed(objs, parse, source, m)[ApTarget(objs, m.widget.xref).value]
  {
    RenameAtTarget(o, objs, parse, source, m);
  }

  /** The sole target of the last child is untouched by the children before it; the body is empty, as the lemma only instantiates `Separate` and `SoleTarget` for the solver. */
  lemma LastTargetUntouched(objs: Objects, ms: seq<Member>, y: nat)
    requires Separate(objs, ms) && ms != [] && SoleTarget(objs, ms, |ms| - 1)
    requires ApTarget(objs, ms[|ms| - 1].widget.xref) == Some(y)
    ensures Untouched(objs, ms[..|ms| - 1], y)
  {
  }

  /** The last child's sole target: the children before it leave the target alone, so its own rename decides it. */
  lemma TargetOfLast(objs: Objects, parse: string -> Dictionary, source: Dictionary -> string, ms: seq<Member>, parentRef: string)
    requires Separate(objs, ms) && ms != [] && SoleTarget(objs, ms, |ms| - 1)
    ensures TargetDone(objs, RewriteAll(objs, parse, source, ms, parentRef), parse, source, ms[|ms| - 1])
  {
    var m := ms[|ms| - 1];
    var t := ApTarget(objs, m.widget.xref);
    if t.Some? && t.value in objs {
      var init := ms[..|ms| - 1];
      LastTargetUntouched(objs, ms, t.value);
      RewriteAllLast(objs, parse, source, ms, parentRef);
      RewriteAllFrame(objs, parse, source, init, parentRef, t.value);
      RewriteChildAtTarget(RewriteAll(objs, parse, source, init, parentRef), objs, parse, source, m, parentRef);
    }
  }

  /** An earlier child's sole target is left alone by the last child's rewrite. */
  lemma TargetBeforeLast(objs: Objects, parse: string -> Dictionary, source: Dictionary -> string, ms: seq<Member>, parentRef: string, i: nat)
    requires Separate(objs, ms) && i < |ms| - 1 && SoleTarget(objs, ms, i)
    requires TargetDone(objs, RewriteAll(objs, parse, source, ms[..|ms| - 1], parentRef), parse, source, ms[i])
    ensures TargetDone(objs, RewriteAll(objs, parse, source, ms, parentRef), parse, source, ms[i])
  {
    var t := ApTarget(objs, ms[i].widget.xref);
    if t.Some? && t.value in objs {
      RewriteAllLast(objs, parse, source, ms, parentRef);
      RewriteChildFrame(RewriteAll(objs, parse, source, ms[..|ms| - 1], parentRef), parse, source, ms[|ms| - 1], parentRef, t.value);
    }
  }

  /** The target of a child's `/AP` that no other child shares ends as `TargetDone` describes. */
  lemma {:induction false} RewriteAllTarget(objs: Objects, parse: string -> Dictionary, source: Dictionary -> string, ms: seq<Member>, parentRef: string, i: nat)
    requires Separate(objs, ms) && i < |ms| && SoleTarget(objs, ms, i)
    ensures TargetDone(objs, RewriteAll(objs, parse, source, ms, parentRef), parse, source, ms[i])
    decreases |ms|
  {
    if i == |ms| - 1 {
      TargetOfLast(objs, parse, source, ms, parentRef);
    } else {
      var init := ms[..|ms| - 1];
      assert ms[i] == init[i] && Separate(objs, init) && SoleTarget(objs, init, i);
      RewriteAllTarget(objs, parse, source, init, parentRef, i);
      TargetBeforeLast(objs, parse, source, ms, parentRef, i);
    }
  }

  /**
   * Rewriting the children of a group: every child ends as `ChildDone`
   * describes, the target of a child's indirect `/AP` that no other child
   * shares holds what that child's rename writes, and every object that is
   * neither a child nor the target of a child's `/AP` is unchanged.
   */
  lemma RewriteAllSpec(objs: Objects, parse: string -> Dictionary, source: Dictionary -> string, ms: seq<Member>, parentRef: string)
    requires Separate(objs, ms)
    ensures var r := RewriteAll(objs, parse, source, ms, parentRef);
      (forall i :: 0 <= i < |ms| ==> ChildDone(objs, r, parse, source, ms[i], parentRef))
      && (forall i :: 0 <= i < |ms| && SoleTarget(objs, ms, i) ==> TargetDone(objs, r, parse, source, ms[i]))
      && (forall y :: y in objs && Untouched(objs, ms, y) ==> r[y] == objs[y])
  {
    forall i | 0 <= i < |ms|
      ensures ChildDone(objs, RewriteAll(objs, parse, source, ms, parentRef), parse, source, ms[i], parentRef)
    {
      RewriteAllDone(objs, parse, source, ms, parentRef, i);
    }
    forall i | 0 <= i < |ms| && SoleTarget(objs, ms, i)
      ensures TargetDone(objs, RewriteAll(objs, parse, source, ms, parentRef), parse, source, ms[i])
    {
      RewriteAllTarget(objs, parse, source, ms, parentRef, i);
    }
    forall y | y in objs && Untouched(objs, ms, y)
      ensures RewriteAll(objs, parse, source, ms, parentRef)[y] == objs[y]
    {
      RewriteAllFrame(objs, parse, source, ms, parentRef, y);
    }
  }

  // ---- One group (python/generate_form.py:573-630)

  /** The document's object table, its fresh-number counter, `fields_entries` and `fields_modified`. */
  datatype Built = Built(objects: Objects, nextXref: nat, fields: seq<string>, modified: bool)

  /** Every object number is below the counter, as `get_new_xref` relies on. */
  ghost predicate Counted(objs: Objects, next: nat) {
    forall x :: x in objs ==> x < next
  }

  /** Sorting keeps the members, so their objects are still in the table. */
  lemma SortKeepsMembers(items: seq<Member>, objs: Objects)
    requires forall i :: 0 <= i < |items| ==> items[i].widget.xref in objs
    ensures forall m :: m in SortBy(items, GroupKey) <==> m in items
    ensures forall i :: 0 <= i < |items| ==> SortBy(items, GroupKey)[i].widget.xref in objs
  {
    var sorted := SortBy(items, GroupKey);
    assert multiset(sorted) == multiset(items);
    forall m
      ensures m in sorted <==> m in items
    {
      assert m in sorted <==> m in multiset(sorted);
      assert m in items <==> m in multiset(items);
    }
    forall i | 0 <= i < |sorted|
      ensures sorted[i].widget.xref in objs
    {
      assert sorted[i] in items;
    }
  }

  /** The parent dictionary of a group whose sorted members are `sorted` (python/generate_form.py:602-618). */
  function GroupParent(objs: Objects, name: string, sorted: seq<Member>): Dictionary
    requires sorted != []
  {
    var first := sorted[0].widget;
    ParentDict(name, first.flags, ChildRefs(sorted), KeyOf(objs, first.xref, "DA"))
  }

  /** Building a group whose sorted members are `sorted` (python/generate_form.py:585-630). */
  function BuildSorted(s: Built, parse: string -> Dictionary, source: Dictionary -> string, name: string, sorted: seq<Member>): (r: Built)
    requires sorted != [] && Counted(s.objects, s.nextXref)
    requires forall i :: 0 <= i < |sorted| ==> sorted[i].widget.xref in s.objects
    ensures r.objects.Keys == s.objects.Keys + {s.nextXref} && r.nextXref == s.nextXref + 1
  {
    var parentRef := RefText(s.nextXref);
    Built(RewriteAll(s.objects[s.nextXref := GroupParent(s.objects, name, sorted)], parse, source, sorted, parentRef),
      s.nextXref + 1, Splice(s.fields, RemoveRefs(s.objects, sorted), parentRef), true)
  }

  /** One pass of the loop over `groups` (python/generate_form.py:573-630); an empty group is skipped. */
  function BuildOne(s: Built, parse: string -> Dictionary, source: Dictionary -> string, name: string, items: seq<Member>): (r: Built)
    requires Counted(s.objects, s.nextXref)
    requires forall i :: 0 <= i < |items| ==> items[i].widget.xref in s.objects
    ensures r.objects.Keys == s.objects.Keys + (if items == [] then {} else {s.nextXref})
    ensures r.nextXref == s.nextXref + (if items == [] then 0 else 1)
    ensures r.modified == (s.modified || items != [])
    ensures Counted(r.objects, r.nextXref)
  {
    if items == [] then s
    else
      SortKeepsMembers(items, s.objects);
      BuildSorted(s, parse, source, name, SortBy(items, GroupKey))
  }

  /** The parent dictionary as written after `get_new_xref` reserved its object (python/generate_form.py:593-619). */
  lemma ParentWritten(objs: Objects, next: nat, name: string, sorted: seq<Member>, withParent: Objects)
    requires Counted(objs, next) && sorted != [] && sorted[0].widget.xref in objs
    requires var first := sorted[0].widget;
      withParent == objs[next := map[]][next :=
        ParentDict(name, first.flags, ChildRefs(sorted), KeyOf(objs[next := map[]], first.xref, "DA"))]
    ensures withParent == objs[next := GroupParent(objs, name, sorted)]
  {
    var first := sorted[0].widget;
    assert KeyOf(objs[next := map[]], first.xref, "DA") == KeyOf(objs, first.xref, "DA");
  }

  /** `BuildOne` step by step: the parent written into the fresh object, then the children rewritten. */
  lemma BuildOneSteps(s: Built, parse: string -> Dictionary, source: Dictionary -> string, name: string, items: seq<Member>,
                      sorted: seq<Member>, after: Objects)
    requires Counted(s.objects, s.nextXref) && items != []
    requires forall i :: 0 <= i < |items| ==> items[i].widget.xref in s.objects
    requires sorted == SortBy(items, GroupKey) && sorted != []
    requires forall i :: 0 <= i < |sorted| ==> sorted[i].widget.xref in s.objects
    requires after == RewriteAll(s.objects[s.nextXref := GroupParent(s.objects, name, sorted)], parse, source, sorted, RefText(s.nextXref))
    ensures BuildOne(s, parse, source, name, items)
      == Built(after, s.nextXref + 1, Splice(s.fields, RemoveRefs(s.objects, sorted), RefText(s.nextXref)), true)
  {
  }

  /** The child references and `/Parent` references a group drops, and nothing else. */
  lemma RemoveRefsSpec(objs: Objects, ms: seq<Member>)
    ensures forall r :: r in RemoveRefs(objs, ms) <==>
      (exists i :: 0 <= i < |ms| && r == RefText(ms[i].widget.xref))
      || (exists i :: 0 <= i < |ms| && KeyOf(objs, ms[i].widget.xref, "Parent") == Value(Xref, r))
  {
    ParentRefsSpec(objs, ms);
    var refs := ChildRefs(ms);
    forall r | r in refs
      ensures exists i :: 0 <= i < |ms| && r == RefText(ms[i].widget.xref)
    {
      var i :| 0 <= i < |refs| && refs[i] == r;
    }
    forall i | 0 <= i < |ms|
      ensures RefText(ms[i].widget.xref) in refs
    {
      assert refs[i] == RefText(ms[i].widget.xref);
    }
  }

  /**
   * Every child's indirect `/AP` and `/Parent` name objects of the table:
   * neither can name the object the new parent is about to take.
   */
  ghost predicate Linked(objs: Objects, ms: seq<Member>) {
    forall i :: 0 <= i < |ms| ==>
      (ApTarget(objs, ms[i].widget.xref).Some? ==> ApTarget(objs, ms[i].widget.xref).value in objs)
      && (KeyOf(objs, ms[i].widget.xref, "Parent").kind == Xref ==>
            (RefTarget(KeyOf(objs, ms[i].widget.xref, "Parent").raw).Some?
             && RefTarget(KeyOf(objs, ms[i].widget.xref, "Parent").raw).value in objs))
  }

  /** A fresh parent's reference is none of the references the group drops. */
  lemma FreshParentNotRemoved(objs: Objects, next: nat, ms: seq<Member>)
    requires Counted(objs, next) && Separate(objs, ms) && Linked(objs, ms)
    ensures RefText(next) !in RemoveRefs(objs, ms)
  {
    RemoveRefsSpec(objs, ms);
    RefTextRoundTrip(next);
    forall i | 0 <= i < |ms|
      ensures RefText(next) != RefText(ms[i].widget.xref)
      ensures KeyOf(objs, ms[i].widget.xref, "Parent") != Value(Xref, RefText(next))
    {
      RefTextRoundTrip(ms[i].widget.xref);
    }
  }

  /** Adding the fresh parent object to the table keeps the children separate. */
  lemma SeparateWithParent(objs: Objects, next: nat, d: Dictionary, ms: seq<Member>)
    requires Counted(objs, next) && Separate(objs, ms) && Linked(objs, ms)
    ensures Separate(objs[next := d], ms)
    ensures forall i :: 0 <= i < |ms| ==> ApTarget(objs[next := d], ms[i].widget.xref) == ApTarget(objs, ms[i].widget.xref)
    ensures Untouched(objs[next := d], ms, next)
  {
    var objs1 := objs[next := d];
    forall i | 0 <= i < |ms|
      ensures ApTarget(objs1, ms[i].widget.xref) == ApTarget(objs, ms[i].widget.xref)
    {
      assert objs1[ms[i].widget.xref] == objs[ms[i].widget.xref];
    }
  }

  /** A child's `ChildDone` against the table with the parent added is its `ChildDone` against the table before. */
  lemma ChildDoneBase(objs: Objects, objs1: Objects, r: Objects, parse: string -> Dictionary, source: Dictionary -> string, m: Member, parentRef: string)
    requires m.widget.xref in objs && m.widget.xref in objs1 && objs1[m.widget.xref] == objs[m.widget.xref]
    requires ApTarget(objs, m.widget.xref) != Some(m.widget.xref)
    requires ChildDone(objs1, r, parse, source, m, parentRef)
    ensures ChildDone(objs, r, parse, source, m, parentRef)
  {
    RenameAtWidget(objs1, objs, parse, source, m);
    assert forall k :: KeyOf(objs1, m.widget.xref, k) == KeyOf(objs, m.widget.xref, k);
  }

  /** The children's rewrite over the table with a new object `next` holding `d`: each child is done. */
  lemma WithParentDone(objs: Objects, next: nat, d: Dictionary, parse: string -> Dictionary, source: Dictionary -> string, sorted: seq<Member>, parentRef: string, i: nat)
    requires Counted(objs, next) && Separate(objs, sorted) && Linked(objs, sorted) && i < |sorted|
    ensures ChildDone(objs, RewriteAll(objs[next := d], parse, source, sorted, parentRef), parse, source, sorted[i], parentRef)
  {
    var objs1 := objs[next := d];
    SeparateWithParent(objs, next, d, sorted);
    RewriteAllDone(objs1, parse, source, sorted, parentRef, i);
    ChildDoneBase(objs, objs1, RewriteAll(objs1, parse, source, sorted, parentRef), parse, source, sorted[i], parentRef);
  }

  /** The children's rewrite over the table with a new object `next` holding `d`: other objects stay. */
  lemma WithParentFrame(objs: Objects, next: nat, d: Dictionary, parse: string -> Dictionary, source: Dictionary -> string, sorted: seq<Member>, parentRef: string, y: nat)
    requires Counted(objs, next) && Separate(objs, sorted) && Linked(objs, sorted)
    requires (y in objs && Untouched(objs, sorted, y)) || y == next
    ensures RewriteAll(objs[next := d], parse, source, sorted, parentRef)[y] == objs[next := d][y]
  {
    var objs1 := objs[next := d];
    SeparateWithParent(objs, next, d, sorted);
    if y != next {
      assert Untouched(objs1, sorted, y);
    }
    RewriteAllFrame(objs1, parse, source, sorted, parentRef, y);
  }

  /** A child's `TargetDone` against the table with the parent added is its `TargetDone` against the table before. */
  lemma TargetDoneBase(objs: Objects, objs1: Objects, r: Objects, parse: string -> Dictionary, source: Dictionary -> string, m: Member)
    requires m.widget.xref in objs && m.widget.xref in objs1 && objs1[m.widget.xref] == objs[m.widget.xref]
    requires ApTarget(objs, m.widget.xref) != Some(m.widget.xref)
    requires ApTarget(objs, m.widget.xref).Some? && ApTarget(objs, m.widget.xref).value in objs ==>
      ApTarget(objs, m.widget.xref).value in objs1 && objs1[ApTarget(objs, m.widget.xref).value] == objs[ApTarget(objs, m.widget.xref).value]
    requires TargetDone(objs1, r, parse, source, m)
    ensures TargetDone(objs, r, parse, source, m)
  {
    var t := ApTarget(objs, m.widget.xref);
    if t.Some? && t.value in objs {
      assert ApTarget(objs1, m.widget.xref) == t;
      RenameAtTarget(objs1, objs, parse, source, m);
    }
  }

  /** The children's rewrite over the table with a new object `next` holding `d`: a child's sole `/AP` target is renamed. */
  lemma WithParentTarget(objs: Objects, next: nat, d: Dictionary, parse: string -> Dictionary, source: Dictionary -> string, sorted: seq<Member>, parentRef: string, i: nat)
    requires Counted(objs, next) && Separate(objs, sorted) && Linked(objs, sorted) && i < |sorted| && SoleTarget(objs, sorted, i)
    ensures TargetDone(objs, RewriteAll(objs[next := d], parse, source, sorted, parentRef), parse, source, sorted[i])
  {
    var objs1 := objs[next := d];
    SeparateWithParent(objs, next, d, sorted);
    assert SoleTarget(objs1, sorted, i);
    RewriteAllTarget(objs1, parse, source, sorted, parentRef, i);
    TargetDoneBase(objs, objs1, RewriteAll(objs1, parse, source, sorted, parentRef), parse, source, sorted[i]);
  }

  /** A group's members are put in key order, keeping each of them (python/generate_form.py:577-584). */
  lemma BuildOneSorts(s: Built, parse: string -> Dictionary, source: Dictionary -> string, name: string, items: seq<Member>)
    requires Counted(s.objects, s.nextXref)
    requires forall i :: 0 <= i < |items| ==> items[i].widget.xref in s.objects
    requires items != []
    ensures forall i :: 0 <= i < |items| ==> SortBy(items, GroupKey)[i].widget.xref in s.objects
    ensures var sorted := SortBy(items, GroupKey);
      SortedBy(sorted, GroupKey) && multiset(sorted) == multiset(items)
      && BuildOne(s, parse, source, name, items) == BuildSorted(s, parse, source, name, sorted)
  {
    SortBySorted(items, GroupKey);
    SortKeepsMembers(items, s.objects);
  }

  /**
   * The new parent object of a group (python/generate_form.py:592-618): it is
   * the fresh object `nextXref`, and after the children are rewritten it still
   * holds the parent dictionary, whose first member supplies `/Ff` and `/DA`.
   */
  lemma BuildParent(s: Built, parse: string -> Dictionary, source: Dictionary -> string, name: string, sorted: seq<Member>)
    requires sorted != [] && Counted(s.objects, s.nextXref)
    requires Separate(s.objects, sorted) && Linked(s.objects, sorted)
    ensures BuildSorted(s, parse, source, name, sorted).objects[s.nextXref] == GroupParent(s.objects, name, sorted)
  {
    WithParentFrame(s.objects, s.nextXref, GroupParent(s.objects, name, sorted), parse, source, sorted, RefText(s.nextXref), s.nextXref);
  }

  /**
   * The children of a group after it is built (python/generate_form.py:621-630):
   * every member ends as `ChildDone` describes against the table before the
   * group, and the target of a member's indirect `/AP` that no other member
   * shares holds what that member's rename writes.
   */
  lemma BuildChildren(s: Built, parse: string -> Dictionary, source: Dictionary -> string, name: string, sorted: seq<Member>)
    requires sorted != [] && Counted(s.objects, s.nextXref)
    requires Separate(s.objects, sorted) && Linked(s.objects, sorted)
    ensures var r := BuildSorted(s, parse, source, name, sorted);
      forall i :: 0 <= i < |sorted| ==> ChildDone(s.objects, r.objects, parse, source, sorted[i], RefText(s.nextXref))
    ensures var r := BuildSorted(s, parse, source, name, sorted);
      forall i :: 0 <= i < |sorted| && SoleTarget(s.objects, sorted, i) ==> TargetDone(s.objects, r.objects, parse, source, sorted[i])
  {
    forall i | 0 <= i < |sorted|
      ensures ChildDone(s.objects, BuildSorted(s, parse, source, name, sorted).objects, parse, source, sorted[i], RefText(s.nextXref))
    {
      WithParentDone(s.objects, s.nextXref, GroupParent(s.objects, name, sorted), parse, source, sorted, RefText(s.nextXref), i);
    }
    forall i | 0 <= i < |sorted| && SoleTarget(s.objects, sorted, i)
      ensures TargetDone(s.objects, BuildSorted(s, parse, source, name, sorted).objects, parse, source, sorted[i])
    {
      WithParentTarget(s.objects, s.nextXref, GroupParent(s.objects, name, sorted), parse, source, sorted, RefText(s.nextXref), i);
    }
  }

  /**
   * Building a group changes no object but the new parent, the children and
   * the targets of the children's `/AP` (python/generate_form.py:592-630).
   */
  lemma BuildFrame(s: Built, parse: string -> Dictionary, source: Dictionary -> string, name: string, sorted: seq<Member>)
    requires sorted != [] && Counted(s.objects, s.nextXref)
    requires Separate(s.objects, sorted) && Linked(s.objects, sorted)
    ensures var r := BuildSorted(s, parse, source, name, sorted);
      forall y :: y in s.objects && Untouched(s.objects, sorted, y) ==> r.objects[y] == s.objects[y]
  {
    forall y | y in s.objects && Untouched(s.objects, sorted, y)
      ensures BuildSorted(s, parse, source, name, sorted).objects[y] == s.objects[y]
    {
      WithParentFrame(s.objects, s.nextXref, GroupParent(s.objects, name, sorted), parse, source, sorted, RefText(s.nextXref), y);
    }
  }

  /**
   * `fields_entries` after a group drops every reference the group removes
   * (python/generate_form.py:586-599): the children's own references and
   * their old indirect `/Parent`s.
   */
  lemma BuildFieldsDropped(s: Built, parse: string -> Dictionary, source: Dictionary -> string, name: string, sorted: seq<Member>)
    requires sorted != [] && Counted(s.objects, s.nextXref)
    requires Separate(s.objects, sorted) && Linked(s.objects, sorted)
    ensures var fields := BuildSorted(s, parse, source, name, sorted).fields;
      (forall i :: 0 <= i < |sorted| ==> RefText(sorted[i].widget.xref) !in fields)
      && (forall i :: 0 <= i < |sorted| && KeyOf(s.objects, sorted[i].widget.xref, "Parent").kind == Xref ==>
            KeyOf(s.objects, sorted[i].widget.xref, "Parent").raw !in fields)
  {
    var remove := RemoveRefs(s.objects, sorted);
    var fields := BuildSorted(s, parse, source, name, sorted).fields;
    assert fields == Splice(s.fields, remove, RefText(s.nextXref));
    FreshParentNotRemoved(s.objects, s.nextXref, sorted);
    SpliceSpec(s.fields, remove, RefText(s.nextXref));
    RemoveRefsSpec(s.objects, sorted);
  }

  // ---- All groups and the whole pass (python/generate_form.py:506-633)

  /** Every member of every group is an object of the table. */
  ghost predicate GroupsIn(g: Groups, objs: Objects) {
    forall n, i :: n in g.members && 0 <= i < |g.members[n]| ==> g.members[n][i].widget.xref in objs
  }

  lemma GroupsInGrow(g: Groups, objs: Objects, objs': Objects, name: string)
    requires GroupsIn(g, objs) && objs.Keys <= objs'.Keys
    ensures GroupsIn(g, objs')
    ensures name in g.members ==> forall i :: 0 <= i < |g.members[name]| ==> g.members[name][i].widget.xref in objs'
  {
  }

  /** What building the groups needs of the state it starts from. */
  ghost predicate Ready(g: Groups, s: Built) {
    Counted(s.objects, s.nextXref) && GroupsIn(g, s.objects)
    && forall i :: 0 <= i < |g.names| ==> g.names[i] in g.members
  }

  /** The groups from the k-th on built in insertion order, starting from `s` (python/generate_form.py:573-630). */
  function BuildFrom(s: Built, parse: string -> Dictionary, source: Dictionary -> string, g: Groups, k: nat): (r: Built)
    requires k <= |g.names| && Ready(g, s)
    ensures s.objects.Keys <= r.objects.Keys && s.nextXref <= r.nextXref && Counted(r.objects, r.nextXref)
    decreases |g.names| - k
  {
    if k == |g.names| then s
    else
      var name := g.names[k];
      GroupsInGrow(g, s.objects, s.objects, name);
      var b := BuildOne(s, parse, source, name, g.members[name]);
      GroupsInGrow(g, s.objects, b.objects, name);
      BuildFrom(b, parse, source, g, k + 1)
  }

  /** One step of `BuildFrom` on any group, as the loop over `groups` takes it. */
  lemma BuildFromNext(s: Built, parse: string -> Dictionary, source: Dictionary -> string, g: Groups, k: nat)
    requires k < |g.names| && Ready(g, s)
    ensures g.names[k] in g.members
    ensures forall i :: 0 <= i < |g.members[g.names[k]]| ==> g.members[g.names[k]][i].widget.xref in s.objects
    ensures var b := BuildOne(s, parse, source, g.names[k], g.members[g.names[k]]);
      s.objects.Keys <= b.objects.Keys && Ready(g, b)
      && BuildFrom(s, parse, source, g, k) == BuildFrom(b, parse, source, g, k + 1)
  {
    var name := g.names[k];
    GroupsInGrow(g, s.objects, s.objects, name);
    var b := BuildOne(s, parse, source, name, g.members[name]);
    GroupsInGrow(g, s.objects, b.objects, name);
  }

  /** With no empty group, each group takes the next fresh object number and sets `fields_modified`. */
  lemma {:induction false} BuildFromCount(s: Built, parse: string -> Dictionary, source: Dictionary -> string, g: Groups, k: nat)
    requires k <= |g.names| && Ready(g, s)
    requires forall i :: 0 <= i < |g.names| ==> g.members[g.names[i]] != []
    ensures var r := BuildFrom(s, parse, source, g, k);
      r.nextXref == s.nextXref + (|g.names| - k) && r.modified == (s.modified || k < |g.names|)
    decreases |g.names| - k
  {
    if k < |g.names| {
      BuildFromNext(s, parse, source, g, k);
      var b := BuildOne(s, parse, source, g.names[k], g.members[g.names[k]]);
      BuildFromCount(b, parse, source, g, k + 1);
    }
  }

  /**
   * The objects after the groups are built are the objects before and the
   * fresh numbers taken, and `fields_modified` is set exactly when a number was taken.
   */
  lemma {:induction false} BuildFromObjects(s: Built, parse: string -> Dictionary, source: Dictionary -> string, g: Groups, k: nat)
    requires k <= |g.names| && Ready(g, s)
    ensures var r := BuildFrom(s, parse, source, g, k);
      (forall x :: x in r.objects <==> x in s.objects || s.nextXref <= x < r.nextXref)
      && r.modified == (s.modified || s.nextXref < r.nextXref)
    decreases |g.names| - k
  {
    if k < |g.names| {
      BuildFromNext(s, parse, source, g, k);
      var b := BuildOne(s, parse, source, g.names[k], g.members[g.names[k]]);
      BuildFromObjects(b, parse, source, g, k + 1);
      var r := BuildFrom(b, parse, source, g, k + 1);
      forall x
        ensures x in r.objects <==> x in s.objects || s.nextXref <= x < r.nextXref
      {
        assert x in b.objects <==> x in s.objects || s.nextXref <= x < b.nextXref;
      }
    }
  }

  /** The `Fields` entries as the pass reads them: a non-array reads as empty (python/generate_form.py:539-543). */
  function FieldsEntries(objs: Objects, acroform: nat): seq<string> {
    var v := KeyOf(objs, acroform, "Fields");
    if v.kind == Array then ParseRefArray(v.raw) else []
  }

  /** The groups the matching loop builds are well formed and made of widgets of the table. */
  lemma GroupsReady(widgets: seq<Widget>, pool: Pool, objs: Objects)
    requires ValidPool(pool)
    requires forall i :: 0 <= i < |widgets| ==> widgets[i].xref in objs
    ensures var g := AssignAll(widgets, pool).groups;
      GroupsIn(g, objs) && forall i :: 0 <= i < |g.names| ==> g.names[i] in g.members && g.members[g.names[i]] != []
  {
    GroupsFromWidgets(widgets, pool, objs);
    GroupsNonEmpty(widgets, pool);
  }

  lemma GroupsFromWidgets(widgets: seq<Widget>, pool: Pool, objs: Objects)
    requires forall i :: 0 <= i < |widgets| ==> widgets[i].xref in objs
    ensures GroupsIn(AssignAll(widgets, pool).groups, objs)
  {
    AssignedFromWidgets(widgets, pool);
    var g := AssignAll(widgets, pool).groups;
    forall n, i | n in g.members && 0 <= i < |g.members[n]|
      ensures g.members[n][i].widget.xref in objs
    {
      var w := g.members[n][i].widget;
      assert w in widgets;
      var j :| 0 <= j < |widgets| && widgets[j] == w;
    }
  }

  lemma GroupsNonEmpty(widgets: seq<Widget>, pool: Pool)
    requires ValidPool(pool)
    ensures var g := AssignAll(widgets, pool).groups;
      forall i :: 0 <= i < |g.names| ==> g.names[i] in g.members && g.members[g.names[i]] != []
  {
    AssignAllSpec(widgets, pool);
    var g := AssignAll(widgets, pool).groups;
    assert ValidGroups(g);
    forall i | 0 <= i < |g.names|
      ensures g.names[i] in g.members && g.members[g.names[i]] != []
    {
      assert g.names[i] in g.names;
    }
  }

  /**
   * The pass once the AcroForm object `acroform` is known and the records
   * are bucketed into `pool` (python/generate_form.py:539-633): the widgets
   * are matched into groups, each group is built in turn, and `/Fields` is
   * written back when a group was built.
   */
  function GroupPass(objs: Objects, next: nat, acroform: nat, parse: string -> Dictionary, source: Dictionary -> string,
                     pool: Pool, widgets: seq<Widget>): (r: DocState)
    requires acroform in objs && Counted(objs, next) && ValidPool(pool)
    requires forall i :: 0 <= i < |widgets| ==> widgets[i].xref in objs
  {
    var g := AssignAll(widgets, pool).groups;
    GroupsReady(widgets, pool, objs);
    var b := BuildFrom(Built(objs, next, FieldsEntries(objs, acroform), false), parse, source, g, 0);
    if b.modified then DocState(WithKey(b.objects, acroform, "Fields", Value(Array, FormatRefArray(b.fields))), b.nextXref)
    else DocState(b.objects, b.nextXref)
  }

  /**
   * `fix_radio_button_groups(doc, updates)` over the document's table, with
   * `widgets` the radio and other widgets of every page in page order. A
   * missing AcroForm object stops the pass where the library would raise.
   */
  function FixRadioGroups(objs: Objects, next: nat, catalog: nat, parse: string -> Dictionary, source: Dictionary -> string,
                          updates: seq<RawUpdate>, widgets: seq<Widget>): (r: DocState)
    requires catalog in objs && Counted(objs, next)
    requires forall i :: 0 <= i < |widgets| ==> widgets[i].xref in objs
  {
    if updates == [] then DocState(objs, next)
    else
      var pr := EnsureAcroForm(objs, next, catalog, parse);
      if pr.result.Err? || pr.result.value !in pr.objects then DocState(pr.objects, pr.nextXref)
      else
        PoolOfValid(updates);
        GroupPass(pr.objects, pr.nextXref, pr.result.value, parse, source, PoolOf(updates), widgets)
  }

  /**
   * The pass allocates exactly one object per group, the parent, and no
   * other; with no radio button among the widgets it changes nothing, and
   * otherwise `/Fields` is written back as an array.
   */
  lemma GroupPassSpec(objs: Objects, next: nat, acroform: nat, parse: string -> Dictionary, source: Dictionary -> string,
                      pool: Pool, widgets: seq<Widget>)
    requires acroform in objs && Counted(objs, next) && ValidPool(pool)
    requires forall i :: 0 <= i < |widgets| ==> widgets[i].xref in objs
    ensures var r := GroupPass(objs, next, acroform, parse, source, pool, widgets);
      r.nextXref == next + |AssignAll(widgets, pool).groups.names|
      && (forall x :: x in r.objects <==> x in objs || next <= x < r.nextXref)
      && (Radios(widgets) == [] ==> r == DocState(objs, next))
      && (Radios(widgets) != [] ==> KeyOf(r.objects, acroform, "Fields").kind == Array)
  {
    var g := AssignAll(widgets, pool).groups;
    GroupsReady(widgets, pool, objs);
    GroupsIffRadios(widgets, pool);
    var s := Built(objs, next, FieldsEntries(objs, acroform), false);
    BuildFromCount(s, parse, source, g, 0);
    BuildFromObjects(s, parse, source, g, 0);
    if g.names == [] {
      assert BuildFrom(s, parse, source, g, 0) == s;
    }
  }

  /**
   * The whole pass: with no update records it changes nothing; when the
   * catalog's `/AcroForm` is neither inline nor a readable reference it
   * changes nothing; with no radio button only the AcroForm promotion
   * happens; and in every case no object is removed and every object number
   * stays below the counter.
   */
  lemma FixRadioGroupsSpec(objs: Objects, next: nat, catalog: nat, parse: string -> Dictionary, source: Dictionary -> string,
                           updates: seq<RawUpdate>, widgets: seq<Widget>)
    requires catalog in objs && Counted(objs, next)
    requires forall i :: 0 <= i < |widgets| ==> widgets[i].xref in objs
    ensures var r := FixRadioGroups(objs, next, catalog, parse, source, updates, widgets);
      var v := KeyOf(objs, catalog, "AcroForm");
      var pr := EnsureAcroForm(objs, next, catalog, parse);
      objs.Keys <= r.objects.Keys && next <= r.nextXref && Counted(r.objects, r.nextXref)
      && (updates == [] ==> r == DocState(objs, next))
      && (v.kind != Dict && (v.kind != Xref || RefTarget(v.raw).None?) ==> r == DocState(objs, next))
      && (updates != [] && Radios(widgets) == [] ==> r == DocState(pr.objects, pr.nextXref))
  {
    if updates != [] {
      var pr := EnsureAcroForm(objs, next, catalog, parse);
      EnsureAcroFormSpec(objs, next, catalog, parse);
      if pr.result.Ok? && pr.result.value in pr.objects {
        PoolOfValid(updates);
        assert forall i :: 0 <= i < |widgets| ==> widgets[i].xref in pr.objects;
        GroupPassSpec(pr.objects, pr.nextXref, pr.result.value, parse, source, PoolOf(updates), widgets);
      }
    }
  }
}
