/**
 * The matching stage of `fix_radio_button_groups`
 * (python/generate_form.py:545-571): every radio-button widget, page by page,
 * is handed one update record (its own field's bucket first, then the first
 * other bucket that is not empty, then the fallback list, and a synthesised
 * record when all are empty) and appended to the group of its resolved field
 * name.
 */
module Matching {
  import opened Wrappers
  import opened Text
  import opened Geometry
  import opened Tables
  import opened Updates

  datatype FieldType = RadioButton | OtherField

  /**
   * A widget as `page.widgets()` yields it: its object number, the index of
   * its page, its field type and name (`field_name or ""`), its rectangle and
   * its field flags.
   */
  datatype Widget = Widget(xref: nat, page: nat, fieldType: FieldType, fieldName: string, rect: Rect, flags: nat)

  /** A member of a radio group: the widget and the record it was handed. */
  datatype Member = Member(widget: Widget, entry: Update)

  /** `groups`: the group names in insertion order and the members of each. */
  datatype Groups = Groups(names: seq<string>, members: map<string, seq<Member>>)

  /** `f"field_{widget.xref}"` */
  function SyntheticName(xref: nat): string {
    "field_" + NatToString(xref)
  }

  /** The record made up for a widget that no list could serve (python/generate_form.py:567-568). */
  function Synthesized(name: string): Update {
    Update(0, None, None, name, "")
  }

  /** `resolved_field or entry.get("field_name") or f"field_{widget.xref}"` (python/generate_form.py:570). */
  function Resolve(resolved: string, entry: Update, xref: nat): (r: string)
    ensures r != ""
  {
    if resolved != "" then resolved else if entry.fieldName != "" then entry.fieldName else SyntheticName(xref)
  }

  /**
   * The cross-bucket search (python/generate_form.py:554-562) over the bucket
   * names from position i on, in insertion order: the position of the first
   * name other than the widget's own whose bucket is not empty.
   */
  function CrossBucket(names: seq<string>, p: Pool, own: string, i: nat): (r: Option<nat>)
    requires i <= |names|
    ensures r.Some? ==> i <= r.value < |names| && names[r.value] != own && Bucket(p, names[r.value]) != []
    ensures r.Some? ==> forall j :: i <= j < r.value ==> names[j] == own || Bucket(p, names[j]) == []
    ensures r.None? ==> forall j :: i <= j < |names| ==> names[j] == own || Bucket(p, names[j]) == []
    decreases |names| - i
  {
    if i == |names| then None
    else if names[i] != own && Bucket(p, names[i]) != [] then Some(i)
    else CrossBucket(names, p, own, i + 1)
  }

  /** The result of matching one widget; `fromPool` tells a popped record from a synthesised one. */
  datatype Choice = Choice(entry: Update, field: string, pool: Pool, fromPool: bool)

  /** Pops the widget's record from the non-empty bucket `name`. */
  function TakeFrom(p: Pool, name: string, w: Widget): Choice
    requires Bucket(p, name) != []
  {
    var b := Bucket(p, name);
    var k := PopIndex(b, w.rect, w.page).value;
    Choice(b[k], name, p.(buckets := p.buckets[name := Without(b, k)]), true)
  }

  /** Which record a widget gets and where it was taken from, before the field name is resolved. */
  function Pick(w: Widget, p: Pool): Choice {
    if Bucket(p, w.fieldName) != [] then TakeFrom(p, w.fieldName, w)
    else match CrossBucket(p.names, p, w.fieldName, 0)
      case Some(i) => TakeFrom(p, p.names[i], w)
      case None =>
        match PopIndex(p.fallback, w.rect, w.page)
        case Some(k) => Choice(p.fallback[k], w.fieldName, p.(fallback := Without(p.fallback, k)), true)
        case None =>
          Choice(Synthesized(if w.fieldName != "" then w.fieldName else SyntheticName(w.xref)), w.fieldName, p, false)
  }

  /** Matching one radio-button widget (python/generate_form.py:549-570). */
  function MatchWidget(w: Widget, p: Pool): Choice {
    var c := Pick(w, p);
    c.(field := Resolve(c.field, c.entry, w.xref))
  }

  /** `groups[field].append(member)` */
  function AddMember(g: Groups, name: string, m: Member): Groups {
    if name in g.members then Groups(g.names, g.members[name := g.members[name] + [m]])
    else Groups(g.names + [name], g.members[name := [m]])
  }

  /** The group names are distinct and non-empty, they are the keys, and no group is empty. */
  ghost predicate ValidGroups(g: Groups) {
    Distinct(g.names)
    && (forall n :: n in g.members <==> n in g.names)
    && (forall n :: n in g.members ==> n != "" && g.members[n] != [])
  }

  /**
   * The state after the matching loop has seen some widgets: the groups, the
   * records left, the members in the order they were placed, and the records
   * handed out.
   */
  datatype Assignment = Assignment(groups: Groups, pool: Pool, placed: seq<Member>, handed: multiset<Update>)

  /** The matching loop over the widgets in page order (python/generate_form.py:545-571). */
  function AssignAll(ws: seq<Widget>, p: Pool): Assignment {
    if ws == [] then Assignment(Groups([], map[]), p, [], multiset{})
    else
      var a := AssignAll(ws[..|ws| - 1], p);
      var w := ws[|ws| - 1];
      if w.fieldType != RadioButton then a
      else
        var c := MatchWidget(w, a.pool);
        var m := Member(w, c.entry);
        Assignment(AddMember(a.groups, c.field, m), c.pool, a.placed + [m],
          a.handed + (if c.fromPool then multiset{c.entry} else multiset{}))
  }

  /** The radio-button widgets of `ws`, in order. */
  function Radios(ws: seq<Widget>): seq<Widget> {
    if ws == [] then []
    else Radios(ws[..|ws| - 1]) + (if ws[|ws| - 1].fieldType == RadioButton then [ws[|ws| - 1]] else [])
  }

  function Widgets(ms: seq<Member>): seq<Widget> {
    if ms == [] then [] else Widgets(ms[..|ms| - 1]) + [ms[|ms| - 1].widget]
  }

  /** Popping from a bucket keeps the pool well formed and removes exactly the record handed out. */
  lemma TakeFromSpec(p: Pool, name: string, w: Widget)
    requires ValidPool(p) && Bucket(p, name) != []
    ensures var c := TakeFrom(p, name, w);
      ValidPool(c.pool) && c.pool.names == p.names && c.pool.fallback == p.fallback
      && Contents(c.pool) + multiset{c.entry} == Contents(p)
  {
    var c := TakeFrom(p, name, w);
    var b := Bucket(p, name);
    var k := PopIndex(b, w.rect, w.page).value;
    forall u
      ensures Contents(c.pool)[u] + multiset{c.entry}[u] == Contents(p)[u]
    {
      TotalUpdate(p.names, p.buckets, name, Without(b, k), u);
    }
    assert Contents(c.pool) + multiset{c.entry} == Contents(p);
  }

  /** Every list of the pool is empty exactly when it holds no record. */
  lemma EmptyPool(p: Pool, own: string)
    requires ValidPool(p)
    requires Bucket(p, own) == [] && CrossBucket(p.names, p, own, 0).None? && p.fallback == []
    ensures Contents(p) == multiset{}
  {
    TotalEmpty(p.names, p.buckets);
  }

  lemma PickSpec(w: Widget, p: Pool)
    requires ValidPool(p)
    ensures var c := Pick(w, p);
      ValidPool(c.pool) && c.pool.names == p.names
      && (c.fromPool ==> Contents(c.pool) + multiset{c.entry} == Contents(p))
      && (!c.fromPool ==> c.pool == p && Contents(p) == multiset{})
  {
    if Bucket(p, w.fieldName) != [] {
      TakeFromSpec(p, w.fieldName, w);
    } else if CrossBucket(p.names, p, w.fieldName, 0).Some? {
      TakeFromSpec(p, p.names[CrossBucket(p.names, p, w.fieldName, 0).value], w);
    } else if p.fallback == [] {
      EmptyPool(p, w.fieldName);
    }
  }

  /**
   * What matching one radio-button widget promises. The widget's own bucket
   * serves it whenever that bucket is not empty (geometry only chooses which
   * of its records); otherwise the first other non-empty bucket serves it,
   * whatever the geometry. A record is synthesised exactly when every list is
   * empty, and that record has no export name. A popped record leaves the pool.
   */
  lemma MatchWidgetSpec(w: Widget, p: Pool)
    requires ValidPool(p)
    ensures var c := MatchWidget(w, p);
      ValidPool(c.pool) && c.pool.names == p.names && c.field != ""
      && (c.fromPool <==> Contents(p) != multiset{})
      && (c.fromPool ==> Contents(c.pool) + multiset{c.entry} == Contents(p))
      && (!c.fromPool ==> c.pool == p && c.entry == Synthesized(c.field) && c.entry.exportName == "")
    ensures var c := MatchWidget(w, p);
      var own := Bucket(p, w.fieldName);
      (own != [] ==> c.field == w.fieldName && c.entry == own[PopIndex(own, w.rect, w.page).value])
      && (own == [] && CrossBucket(p.names, p, w.fieldName, 0).Some? ==>
            var b := Bucket(p, p.names[CrossBucket(p.names, p, w.fieldName, 0).value]);
            c.field == p.names[CrossBucket(p.names, p, w.fieldName, 0).value]
            && c.entry == b[PopIndex(b, w.rect, w.page).value])
      && (own == [] && CrossBucket(p.names, p, w.fieldName, 0).None? && p.fallback != [] ==>
            c.entry == p.fallback[PopIndex(p.fallback, w.rect, w.page).value]
            && c.field == (if w.fieldName != "" then w.fieldName
                           else if c.entry.fieldName != "" then c.entry.fieldName
                           else SyntheticName(w.xref)))
  {
    PickSpec(w, p);
    var c := Pick(w, p);
    if c.fromPool {
      assert c.entry in Contents(p);
    }
    if Bucket(p, w.fieldName) != [] {
      assert w.fieldName in p.names;
    }
  }

  lemma AddToExisting(g: Groups, name: string, m: Member)
    requires ValidGroups(g) && name in g.members
    ensures ValidGroups(AddMember(g, name, m))
    ensures Total(AddMember(g, name, m).names, AddMember(g, name, m).members) == Total(g.names, g.members) + multiset{m}
  {
    var g' := AddMember(g, name, m);
    forall u
      ensures Total(g'.names, g'.members)[u] == (Total(g.names, g.members) + multiset{m})[u]
    {
      TotalUpdate(g.names, g.members, name, g.members[name] + [m], u);
    }
  }

  lemma AddNewGroup(g: Groups, name: string, m: Member)
    requires ValidGroups(g) && name != "" && name !in g.members
    ensures ValidGroups(AddMember(g, name, m))
    ensures Total(AddMember(g, name, m).names, AddMember(g, name, m).members) == Total(g.names, g.members) + multiset{m}
  {
    var g' := AddMember(g, name, m);
    TotalAppend(g.names, g.members, name, [m]);
    forall i, j | 0 <= i < j < |g'.names|
      ensures g'.names[i] != g'.names[j]
    {
      if j == |g.names| {
        assert g.names[i] in g.names;
      }
    }
  }

  /** Adding a member keeps the groups well formed and adds exactly that member. */
  lemma AddMemberSpec(g: Groups, name: string, m: Member)
    requires ValidGroups(g) && name != ""
    ensures ValidGroups(AddMember(g, name, m))
    ensures Total(AddMember(g, name, m).names, AddMember(g, name, m).members) == Total(g.names, g.members) + multiset{m}
  {
    if name in g.members {
      AddToExisting(g, name, m);
    } else {
      AddNewGroup(g, name, m);
    }
  }

  lemma AssignStep(ws: seq<Widget>, p: Pool)
    requires ws != []
    ensures AssignAll(ws, p) ==
      var a := AssignAll(ws[..|ws| - 1], p);
      var w := ws[|ws| - 1];
      if w.fieldType != RadioButton then a
      else
        var c := MatchWidget(w, a.pool);
        var m := Member(w, c.entry);
        Assignment(AddMember(a.groups, c.field, m), c.pool, a.placed + [m],
          a.handed + (if c.fromPool then multiset{c.entry} else multiset{}))
    ensures Radios(ws) == Radios(ws[..|ws| - 1]) + (if ws[|ws| - 1].fieldType == RadioButton then [ws[|ws| - 1]] else [])
  {
  }

  /** The invariant of the matching loop, for a prefix of the widgets. */
  ghost predicate AssignInvariant(ws: seq<Widget>, p: Pool, a: Assignment) {
    ValidPool(a.pool) && a.pool.names == p.names
    && ValidGroups(a.groups)
    && Total(a.groups.names, a.groups.members) == multiset(a.placed)
    && Widgets(a.placed) == Radios(ws)
    && Contents(a.pool) + a.handed == Contents(p)
  }

  lemma WidgetsRadiosStep(ws: seq<Widget>, w: Widget, placed: seq<Member>, m: Member)
    ensures Widgets(placed + [m]) == Widgets(placed) + [m.widget]
    ensures Radios(ws + [w]) == Radios(ws) + (if w.fieldType == RadioButton then [w] else [])
  {
    assert (ws + [w])[..|ws|] == ws;
    assert (placed + [m])[..|placed|] == placed;
  }

  lemma HandOut(left: multiset<Update>, e: Update, before: multiset<Update>, handed: multiset<Update>, all: multiset<Update>)
    requires left + multiset{e} == before && before + handed == all
    ensures left + (handed + multiset{e}) == all
  {
  }

  lemma AssignInvariantStep(ws: seq<Widget>, w: Widget, p: Pool, a: Assignment)
    requires AssignInvariant(ws, p, a) && w.fieldType == RadioButton
    ensures var c := MatchWidget(w, a.pool);
      var m := Member(w, c.entry);
      AssignInvariant(ws + [w], p, Assignment(AddMember(a.groups, c.field, m), c.pool, a.placed + [m],
        a.handed + (if c.fromPool then multiset{c.entry} else multiset{})))
  {
    var c := MatchWidget(w, a.pool);
    var m := Member(w, c.entry);
    MatchWidgetSpec(w, a.pool);
    AddMemberSpec(a.groups, c.field, m);
    WidgetsRadiosStep(ws, w, a.placed, m);
    if c.fromPool {
      HandOut(Contents(c.pool), c.entry, Contents(a.pool), a.handed, Contents(p));
    } else {
      assert a.handed + multiset{} == a.handed;
    }
  }

  lemma AssignInvariantSkip(ws: seq<Widget>, w: Widget, p: Pool, a: Assignment)
    requires AssignInvariant(ws, p, a) && w.fieldType != RadioButton
    ensures AssignInvariant(ws + [w], p, a)
  {
    WidgetsRadiosStep(ws, w, a.placed, Member(w, Synthesized("")));
  }

  /**
   * The matching loop places every radio-button widget, and only those, in
   * exactly one group, in page order; every group name is non-empty; and
   * each record is handed to at most one widget, since what is handed out
   * and what is left add up to the records there were.
   */
  lemma {:induction false} AssignAllSpec(ws: seq<Widget>, p: Pool)
    requires ValidPool(p)
    ensures AssignInvariant(ws, p, AssignAll(ws, p))
    decreases |ws|
  {
    if ws != [] {
      var init := ws[..|ws| - 1];
      AssignAllSpec(init, p);
      AssignStep(ws, p);
      assert ws == init + [ws[|ws| - 1]];
      if ws[|ws| - 1].fieldType == RadioButton {
        AssignInvariantStep(init, ws[|ws| - 1], p, AssignAll(init, p));
      } else {
        AssignInvariantSkip(init, ws[|ws| - 1], p, AssignAll(init, p));
      }
    }
  }

  /** Every group member is one of the widgets enumerated. */
  lemma {:induction false} AssignedFromWidgets(ws: seq<Widget>, p: Pool)
    ensures var g := AssignAll(ws, p).groups;
      forall n, i :: n in g.members && 0 <= i < |g.members[n]| ==> g.members[n][i].widget in ws
    decreases |ws|
  {
    if ws != [] {
      var init := ws[..|ws| - 1];
      var w := ws[|ws| - 1];
      assert ws == init + [w];
      AssignedFromWidgets(init, p);
      AssignStep(ws, p);
      var a := AssignAll(init, p);
      if w.fieldType == RadioButton {
        var c := MatchWidget(w, a.pool);
        var g := AddMember(a.groups, c.field, Member(w, c.entry));
        assert AssignAll(ws, p).groups == g;
        forall n, i | n in g.members && 0 <= i < |g.members[n]|
          ensures g.members[n][i].widget in ws
        {
          if n != c.field {
            assert g.members[n] == a.groups.members[n];
            assert a.groups.members[n][i].widget in init;
          } else if c.field !in a.groups.members {
            assert g.members[n] == [Member(w, c.entry)];
          } else if i == |g.members[n]| - 1 {
            assert g.members[n][i].widget == w;
          } else {
            assert g.members[n] == a.groups.members[n] + [Member(w, c.entry)];
            assert g.members[n][i] == a.groups.members[n][i];
            assert a.groups.members[n][i].widget in init;
          }
        }
      }
    }
  }

  /** Some group is built exactly when some widget is a radio button. */
  lemma {:induction false} GroupsIffRadios(ws: seq<Widget>, p: Pool)
    requires ValidPool(p)
    ensures AssignAll(ws, p).groups.names == [] <==> Radios(ws) == []
    decreases |ws|
  {
    if ws != [] {
      var init := ws[..|ws| - 1];
      var w := ws[|ws| - 1];
      GroupsIffRadios(init, p);
      AssignAllSpec(init, p);
      var a := AssignAll(init, p);
      if w.fieldType == RadioButton {
        var c := MatchWidget(w, a.pool);
        var g := AddMember(a.groups, c.field, Member(w, c.entry));
        assert AssignAll(ws, p).groups == g;
        if c.field in a.groups.members {
          assert c.field in g.names;
        }
      }
    }
  }

  /** No two members, of one group or of two, share a widget object. */
  ghost predicate Unshared(g: Groups) {
    forall a, b, i, j ::
      a in g.members && b in g.members && 0 <= i < |g.members[a]| && 0 <= j < |g.members[b]| && (a != b || i != j)
      ==> g.members[a][i].widget.xref != g.members[b][j].widget.xref
  }

  /** A member whose widget object no member has keeps the members unshared. */
  lemma UnsharedAdd(g: Groups, name: string, m: Member)
    requires Unshared(g)
    requires forall a, i :: a in g.members && 0 <= i < |g.members[a]| ==> g.members[a][i].widget.xref != m.widget.xref
    ensures Unshared(AddMember(g, name, m))
  {
    var g' := AddMember(g, name, m);
    forall a, b, i, j | a in g'.members && b in g'.members && 0 <= i < |g'.members[a]| && 0 <= j < |g'.members[b]| && (a != b || i != j)
      ensures g'.members[a][i].widget.xref != g'.members[b][j].widget.xref
    {
      var isNewA := a == name && (name !in g.members || i == |g.members[name]|);
      var isNewB := b == name && (name !in g.members || j == |g.members[name]|);
      if !isNewA {
        assert g'.members[a][i] == g.members[a][i];
      }
      if !isNewB {
        assert g'.members[b][j] == g.members[b][j];
      }
    }
  }

  /** Widgets with distinct objects are placed into groups whose members share no object. */
  lemma {:induction false} AssignUnshared(ws: seq<Widget>, p: Pool)
    requires forall i, j :: 0 <= i < j < |ws| ==> ws[i].xref != ws[j].xref
    ensures Unshared(AssignAll(ws, p).groups)
    decreases |ws|
  {
    if ws != [] {
      var init := ws[..|ws| - 1];
      var w := ws[|ws| - 1];
      AssignUnshared(init, p);
      AssignedFromWidgets(init, p);
      AssignStep(ws, p);
      var a := AssignAll(init, p);
      if w.fieldType == RadioButton {
        var c := MatchWidget(w, a.pool);
        forall n, i | n in a.groups.members && 0 <= i < |a.groups.members[n]|
          ensures a.groups.members[n][i].widget.xref != w.xref
        {
          var k :| 0 <= k < |init| && init[k] == a.groups.members[n][i].widget;
          assert ws[k] == init[k];
        }
        UnsharedAdd(a.groups, c.field, Member(w, c.entry));
      }
    }
  }

  /** A pop from the non-empty bucket `name` is `TakeFrom`. */
  lemma PopIsTake(p: Pool, name: string, w: Widget, e: Option<Update>, rest: seq<Update>)
    requires name in p.buckets && p.buckets[name] != []
    requires match PopIndex(p.buckets[name], w.rect, w.page)
      case None => false
      case Some(k) => e == Some(p.buckets[name][k]) && rest == Without(p.buckets[name], k)
    ensures e.Some? && TakeFrom(p, name, w) == Choice(e.value, name, p.(buckets := p.buckets[name := rest]), true)
  {
  }

  /** The cross-bucket loop (python/generate_form.py:554-562). */
  method CrossSearch(w: Widget, p: Pool) returns (e: Option<Update>, field: string, rest: seq<Update>)
    requires ValidPool(p)
    ensures match CrossBucket(p.names, p, w.fieldName, 0)
      case None => e.None?
      case Some(i) => (e.Some? && field == p.names[i]
        && TakeFrom(p, field, w) == Choice(e.value, field, p.(buckets := p.buckets[field := rest]), true))
  {
    e, field, rest := None, "", [];
    var i := 0;
    while i < |p.names| && e.None?
      invariant i <= |p.names|
      invariant e.None? ==> CrossBucket(p.names, p, w.fieldName, 0) == CrossBucket(p.names, p, w.fieldName, i)
      invariant e.Some? ==> (CrossBucket(p.names, p, w.fieldName, 0) == Some(i - 1) && field == p.names[i - 1]
        && TakeFrom(p, field, w) == Choice(e.value, field, p.(buckets := p.buckets[field := rest]), true))
    {
      var candidateField := p.names[i];
      if candidateField != w.fieldName {
        var candidate, candidateRest := PopMatching(p.buckets[candidateField], w.rect, w.page);
        if candidate.Some? {
          PopIsTake(p, candidateField, w, candidate, candidateRest);
          e, rest, field := candidate, candidateRest, candidateField;
        }
      }
      i := i + 1;
    }
  }

  /**
   * One iteration of the matching loop for a radio-button widget
   * (python/generate_form.py:549-570), with the pops done in place on the
   * pool's lists.
   */
  method MatchOne(w: Widget, p: Pool) returns (entry: Update, field: string, p': Pool)
    requires ValidPool(p)
    ensures var c := MatchWidget(w, p);
      entry == c.entry && field == c.field && p' == c.pool
  {
    var initialField := w.fieldName;
    var own := if initialField in p.buckets then p.buckets[initialField] else [];
    var e, rest := PopMatching(own, w.rect, w.page);
    var resolvedField := initialField;
    p' := p;
    if e.Some? {
      PopIsTake(p, initialField, w, e, rest);
      p' := p'.(buckets := p'.buckets[initialField := rest]);
    } else {
      assert Bucket(p, initialField) == [];
      var crossField;
      e, crossField, rest := CrossSearch(w, p);
      if e.Some? {
        resolvedField := crossField;
        p' := p'.(buckets := p'.buckets[resolvedField := rest]);
      } else {
        var fallbackEntry, fallbackRest := PopMatching(p.fallback, w.rect, w.page);
        if fallbackEntry.Some? {
          e := fallbackEntry;
          p' := p'.(fallback := fallbackRest);
        }
      }
    }
    entry := if e.Some? then e.value else Synthesized(if resolvedField != "" then resolvedField else SyntheticName(w.xref));
    field := Resolve(resolvedField, entry, w.xref);
  }

  /** The matching loop over the widgets of every page, in page order (python/generate_form.py:545-571). */
  method AssignWidgets(widgets: seq<Widget>, p: Pool) returns (groups: Groups, left: Pool)
    requires ValidPool(p)
    ensures groups == AssignAll(widgets, p).groups && left == AssignAll(widgets, p).pool
  {
    groups, left := Groups([], map[]), p;
    for i := 0 to |widgets|
      invariant groups == AssignAll(widgets[..i], p).groups && left == AssignAll(widgets[..i], p).pool
    {
      AssignAllSpec(widgets[..i], p);
      AssignStep(widgets[..i + 1], p);
      assert widgets[..i + 1][..i] == widgets[..i];
      var widget := widgets[i];
      if widget.fieldType == RadioButton {
        var entry, field;
        entry, field, left := MatchOne(widget, left);
        var member := Member(widget, entry);
        if field in groups.members {
          groups := groups.(members := groups.members[field := groups.members[field] + [member]]);
        } else {
          groups := Groups(groups.names + [field], groups.members[field := [member]]);
        }
      }
    }
    assert widgets[..|widgets|] == widgets;
  }
}
