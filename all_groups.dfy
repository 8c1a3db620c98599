/**
 * What each radio group ends as once the whole pass has run
 * (python/generate_form.py:573-633), group by group across the loop over
 * `groups`, and what the pass leaves of every object it does not rebuild.
 */
module AllGroups {
  import opened Wrappers
  import opened Text
  import opened RefArray
  import opened Sorting
  import opened PdfDoc
  import opened FormObjects
  import opened Updates
  import opened Matching
  import opened RadioGroups
  import Tables

  /** The members of the k-th group, and none past the last group. */
  function Grp(g: Groups, k: nat): seq<Member> {
    if k < |g.names| && g.names[k] in g.members then g.members[g.names[k]] else []
  }

  /**
   * What the pass needs of the widgets it groups for each group to end as
   * built: every group is non-empty, its members are distinct objects of the
   * table whose indirect `/AP` and `/Parent` name objects of the table, and
   * no member shares its object with, or is the `/AP` target of, a member of
   * another group.
   */
  ghost predicate Apart(g: Groups, objs: Objects) {
    (forall k: nat :: k < |g.names| ==> Grp(g, k) != [] && Separate(objs, Grp(g, k)) && Linked(objs, Grp(g, k)))
    && (forall j: nat, k: nat, m, n :: j != k && m in Grp(g, j) && n in Grp(g, k) ==>
          m.widget.xref != n.widget.xref && ApTarget(objs, m.widget.xref) != Some(n.widget.xref))
  }

  /** The members of the groups from the k-th on still have the objects they had in `objs0`. */
  ghost predicate Pristine(objs0: Objects, g: Groups, k: nat, objs: Objects) {
    forall j: nat, m :: k <= j && m in Grp(g, j) ==>
      m.widget.xref in objs0 && m.widget.xref in objs && objs[m.widget.xref] == objs0[m.widget.xref]
  }

  /**
   * The group `name` with members `items`, built against the table `objs0`
   * with its parent at the object `at`: the parent holds the parent
   * dictionary over the members in key order; every member is a kid of it as
   * `ChildDone` describes; and `fields_entries` holds the parent's reference
   * and no member's.
   */
  ghost predicate GroupDone(objs0: Objects, at: nat, parse: string -> Dictionary, source: Dictionary -> string,
                            name: string, items: seq<Member>, r: Built) {
    items != []
    && at in r.objects && r.objects[at] == GroupParent(objs0, name, SortBy(items, GroupKey))
    && KidsDone(objs0, r.objects, parse, source, items, RefText(at))
    && RefText(at) in r.fields
    && Unlisted(items, r.fields)
  }

  /** Every one of `items` is a kid of `parentRef` in `r`, as `ChildDone` describes. */
  ghost predicate KidsDone(objs0: Objects, r: Objects, parse: string -> Dictionary, source: Dictionary -> string,
                           items: seq<Member>, parentRef: string) {
    forall m :: m in items ==> m.widget.xref in objs0 && ChildDone(objs0, r, parse, source, m, parentRef)
  }

  /** No one of `items` has its reference in `fields`. */
  ghost predicate Unlisted(items: seq<Member>, fields: seq<string>) {
    forall m :: m in items ==> RefText(m.widget.xref) !in fields
  }

  /** The state after the first k groups are built from `objs0` and `next0`. */
  ghost predicate Building(objs0: Objects, next0: nat, parse: string -> Dictionary, source: Dictionary -> string,
                           g: Groups, k: nat, s: Built) {
    k <= |g.names| && Ready(g, s) && Apart(g, objs0) && Counted(objs0, next0)
    && objs0.Keys <= s.objects.Keys && s.nextXref == next0 + k
    && Pristine(objs0, g, k, s.objects)
    && (forall t :: t in s.fields ==> IsRef(t))
    && DoneBefore(objs0, next0, parse, source, g, k, s)
  }

  /**
   * The groups before the k-th are built in `r`, the j-th with its parent at
   * the object `next0 + j` (named `at` so that the number stays one term).
   */
  ghost predicate DoneBefore(objs0: Objects, next0: nat, parse: string -> Dictionary, source: Dictionary -> string,
                             g: Groups, k: nat, r: Built) {
    k <= |g.names|
    && forall j: nat, at: nat :: j < k && at == next0 + j ==> GroupDone(objs0, at, parse, source, g.names[j], Grp(g, j), r)
  }

  lemma TwiceCounted(xs: seq<Member>, i: nat, j: nat)
    requires i < j < |xs| && xs[i] == xs[j]
    ensures multiset(xs)[xs[i]] >= 2
  {
    assert xs == xs[..j] + [xs[j]] + xs[j + 1..];
    assert xs[i] in xs[..j];
  }

  lemma OnceCounted(xs: seq<Member>, a: nat)
    requires a < |xs| && forall b :: 0 <= b < |xs| && b != a ==> xs[b] != xs[a]
    ensures multiset(xs)[xs[a]] == 1
  {
    assert xs == xs[..a] + [xs[a]] + xs[a + 1..];
    assert xs[a] !in xs[..a];
    assert xs[a] !in xs[a + 1..];
  }

  /** Sorting keeps the members' objects distinct. */
  lemma SortedDistinct(objs: Objects, items: seq<Member>)
    requires Separate(objs, items)
    ensures var sorted := SortBy(items, GroupKey);
      forall i, j :: 0 <= i < j < |sorted| ==> sorted[i].widget.xref != sorted[j].widget.xref
  {
    var sorted := SortBy(items, GroupKey);
    SortKeepsMembers(items, objs);
    forall i, j | 0 <= i < j < |sorted|
      ensures sorted[i].widget.xref != sorted[j].widget.xref
    {
      assert sorted[i] in sorted && sorted[j] in sorted;
      var a :| 0 <= a < |items| && items[a] == sorted[i];
      var b :| 0 <= b < |items| && items[b] == sorted[j];
      if a == b {
        TwiceCounted(sorted, i, j);
        OnceCounted(items, a);
      }
    }
  }

  /** Sorting a group keeps its members separate and linked. */
  lemma SortedSeparate(objs: Objects, items: seq<Member>)
    requires Separate(objs, items) && Linked(objs, items)
    ensures var sorted := SortBy(items, GroupKey);
      Separate(objs, sorted) && Linked(objs, sorted) && forall m :: m in sorted <==> m in items
  {
    var sorted := SortBy(items, GroupKey);
    SortKeepsMembers(items, objs);
    SortedDistinct(objs, items);
    forall i | 0 <= i < |sorted|
      ensures exists a :: 0 <= a < |items| && items[a] == sorted[i]
    {
      assert sorted[i] in items;
    }
  }

  /** Members whose objects are as they were in `objs0` read the same `/AP` target and `/Parent` there. */
  lemma SameMembers(objs0: Objects, objs: Objects, ms: seq<Member>)
    requires Separate(objs0, ms) && Linked(objs0, ms) && objs0.Keys <= objs.Keys
    requires forall i :: 0 <= i < |ms| ==> ms[i].widget.xref in objs && objs[ms[i].widget.xref] == objs0[ms[i].widget.xref]
    ensures Separate(objs, ms) && Linked(objs, ms)
    ensures forall i :: 0 <= i < |ms| ==> ApTarget(objs, ms[i].widget.xref) == ApTarget(objs0, ms[i].widget.xref)
    ensures forall i :: 0 <= i < |ms| ==> KeyOf(objs, ms[i].widget.xref, "Parent") == KeyOf(objs0, ms[i].widget.xref, "Parent")
  {
    forall i | 0 <= i < |ms|
      ensures ApTarget(objs, ms[i].widget.xref) == ApTarget(objs0, ms[i].widget.xref)
      ensures KeyOf(objs, ms[i].widget.xref, "Parent") == KeyOf(objs0, ms[i].widget.xref, "Parent")
    {
      assert ObjectOf(objs, ms[i].widget.xref) == ObjectOf(objs0, ms[i].widget.xref);
    }
  }

  /** The `/Parent` references collected depend only on the members' objects. */
  lemma {:induction false} ParentRefsSame(objs0: Objects, objs: Objects, ms: seq<Member>)
    requires forall i :: 0 <= i < |ms| ==> KeyOf(objs, ms[i].widget.xref, "Parent") == KeyOf(objs0, ms[i].widget.xref, "Parent")
    ensures ParentRefs(objs, ms) == ParentRefs(objs0, ms)
    decreases |ms|
  {
    if ms != [] {
      ParentRefsSame(objs0, objs, ms[..|ms| - 1]);
    }
  }

  /** The reference of an object not in the table is none of the references a group drops. */
  lemma RefNotRemoved(objs: Objects, p: nat, ms: seq<Member>)
    requires p !in objs && Linked(objs, ms)
    requires forall i :: 0 <= i < |ms| ==> ms[i].widget.xref in objs
    ensures RefText(p) !in RemoveRefs(objs, ms)
  {
    RemoveRefsSpec(objs, ms);
    RefTextRoundTrip(p);
    forall i | 0 <= i < |ms|
      ensures RefText(p) != RefText(ms[i].widget.xref)
      ensures KeyOf(objs, ms[i].widget.xref, "Parent") != Value(Xref, RefText(p))
    {
      RefTextRoundTrip(ms[i].widget.xref);
    }
  }

  /** `fields_entries` after a splice holds the new parent and the references not dropped, and nothing else. */
  lemma SpliceMembers(fields: seq<string>, remove: set<string>, parentRef: string)
    requires parentRef !in remove
    ensures forall x :: x in Splice(fields, remove, parentRef) <==> x == parentRef || (x in fields && x !in remove)
  {
    var r := Splice(fields, remove, parentRef);
    var at := InsertIndex(fields, remove);
    SpliceSpec(fields, remove, parentRef);
    KeptMembers(fields, remove);
    assert r == r[..at] + [r[at]] + r[at + 1..];
  }

  /**
   * A group about to be built: its members are separate and linked in
   * `objs0`, and their objects are still what they were there.
   */
  ghost predicate Pending(objs0: Objects, s: Built, ms: seq<Member>) {
    ms != [] && Counted(s.objects, s.nextXref) && objs0.Keys <= s.objects.Keys
    && Separate(objs0, ms) && Linked(objs0, ms)
    && forall i :: 0 <= i < |ms| ==> ms[i].widget.xref in s.objects && s.objects[ms[i].widget.xref] == objs0[ms[i].widget.xref]
  }

  /** Sorting a pending group keeps it pending and keeps its members. */
  lemma PendingSort(objs0: Objects, s: Built, items: seq<Member>)
    requires Pending(objs0, s, items)
    ensures Pending(objs0, s, SortBy(items, GroupKey))
    ensures forall m :: m in SortBy(items, GroupKey) <==> m in items
  {
    var sorted := SortBy(items, GroupKey);
    SortedSeparate(objs0, items);
    forall i | 0 <= i < |sorted|
      ensures sorted[i].widget.xref in s.objects && s.objects[sorted[i].widget.xref] == objs0[sorted[i].widget.xref]
    {
      assert sorted[i] in items;
    }
  }

  /** A pending group's parent is the fresh object, holding the parent dictionary as `objs0` gives it. */
  lemma SortedParent(objs0: Objects, s: Built, parse: string -> Dictionary, source: Dictionary -> string, name: string, sorted: seq<Member>)
    requires Pending(objs0, s, sorted)
    ensures var b := BuildSorted(s, parse, source, name, sorted);
      s.nextXref in b.objects && b.objects[s.nextXref] == GroupParent(objs0, name, sorted)
  {
    SameMembers(objs0, s.objects, sorted);
    BuildParent(s, parse, source, name, sorted);
    assert KeyOf(s.objects, sorted[0].widget.xref, "DA") == KeyOf(objs0, sorted[0].widget.xref, "DA");
  }

  /** A pending group's members end as `ChildDone` describes against `objs0`. */
  lemma SortedChildren(objs0: Objects, s: Built, parse: string -> Dictionary, source: Dictionary -> string, name: string, sorted: seq<Member>)
    requires Pending(objs0, s, sorted)
    ensures var b := BuildSorted(s, parse, source, name, sorted);
      forall i :: 0 <= i < |sorted| ==> ChildDone(objs0, b.objects, parse, source, sorted[i], RefText(s.nextXref))
  {
    var r := BuildSorted(s, parse, source, name, sorted).objects;
    SameMembers(objs0, s.objects, sorted);
    BuildChildren(s, parse, source, name, sorted);
    forall i | 0 <= i < |sorted|
      ensures ChildDone(objs0, r, parse, source, sorted[i], RefText(s.nextXref))
    {
      ChildDoneBase(objs0, s.objects, r, parse, source, sorted[i], RefText(s.nextXref));
    }
  }

  /** A pending group's `fields_entries` holds the new parent's reference and no member's. */
  lemma SortedFieldsDone(objs0: Objects, s: Built, parse: string -> Dictionary, source: Dictionary -> string, name: string, sorted: seq<Member>)
    requires Pending(objs0, s, sorted)
    ensures var b := BuildSorted(s, parse, source, name, sorted);
      RefText(s.nextXref) in b.fields && forall i :: 0 <= i < |sorted| ==> RefText(sorted[i].widget.xref) !in b.fields
  {
    SameMembers(objs0, s.objects, sorted);
    FreshParentNotRemoved(s.objects, s.nextXref, sorted);
    SpliceSpec(s.fields, RemoveRefs(s.objects, sorted), RefText(s.nextXref));
    BuildFieldsDropped(s, parse, source, name, sorted);
  }

  /**
   * Building a pending group leaves alone every object outside `objs0`
   * (earlier parents) and every object of `objs0` that is neither a member
   * nor the target of a member's `/AP`.
   */
  lemma SortedKeeps(objs0: Objects, s: Built, parse: string -> Dictionary, source: Dictionary -> string, name: string,
                    sorted: seq<Member>, y: nat)
    requires Pending(objs0, s, sorted) && y in s.objects
    requires y !in objs0 || forall i :: 0 <= i < |sorted| ==> sorted[i].widget.xref != y && ApTarget(objs0, sorted[i].widget.xref) != Some(y)
    ensures BuildSorted(s, parse, source, name, sorted).objects[y] == s.objects[y]
  {
    SameMembers(objs0, s.objects, sorted);
    assert Untouched(s.objects, sorted, y);
    BuildFrame(s, parse, source, name, sorted);
  }

  /**
   * `fields_entries` after a pending group: the reference of an object
   * outside `objs0` stays, and nothing enters but the new parent's reference.
   */
  lemma SortedFields(objs0: Objects, s: Built, parse: string -> Dictionary, source: Dictionary -> string, name: string,
                     sorted: seq<Member>)
    requires Pending(objs0, s, sorted)
    ensures var b := BuildSorted(s, parse, source, name, sorted);
      (forall p :: p !in objs0 && RefText(p) in s.fields ==> RefText(p) in b.fields)
      && (forall t :: t in b.fields ==> t == RefText(s.nextXref) || t in s.fields)
  {
    var parentRef := RefText(s.nextXref);
    SameMembers(objs0, s.objects, sorted);
    FreshParentNotRemoved(s.objects, s.nextXref, sorted);
    SpliceMembers(s.fields, RemoveRefs(s.objects, sorted), parentRef);
    ParentRefsSame(objs0, s.objects, sorted);
    forall p | p !in objs0
      ensures RefText(p) !in RemoveRefs(s.objects, sorted)
    {
      RefNotRemoved(objs0, p, sorted);
    }
  }

  /** What holds of every member of a sorted list holds of every member of the list it sorts. */
  lemma MembersDone(objs0: Objects, r: Objects, fields: seq<string>, parse: string -> Dictionary, source: Dictionary -> string,
                    items: seq<Member>, sorted: seq<Member>, parentRef: string)
    requires forall m :: m in sorted <==> m in items
    requires forall i :: 0 <= i < |sorted| ==>
      sorted[i].widget.xref in objs0 && ChildDone(objs0, r, parse, source, sorted[i], parentRef)
      && RefText(sorted[i].widget.xref) !in fields
    ensures forall m :: m in items ==>
      m.widget.xref in objs0 && ChildDone(objs0, r, parse, source, m, parentRef) && RefText(m.widget.xref) !in fields
  {
    forall m | m in items
      ensures m.widget.xref in objs0 && ChildDone(objs0, r, parse, source, m, parentRef) && RefText(m.widget.xref) !in fields
    {
      assert m in sorted;
      var i :| 0 <= i < |sorted| && sorted[i] == m;
    }
  }

  /** What building a pending group leaves, clause by clause. */
  lemma BuildOneParts(objs0: Objects, s: Built, parse: string -> Dictionary, source: Dictionary -> string,
                      name: string, items: seq<Member>, at: nat)
    requires Pending(objs0, s, items) && at == s.nextXref
    ensures at in BuildOne(s, parse, source, name, items).objects
    ensures BuildOne(s, parse, source, name, items).objects[at] == GroupParent(objs0, name, SortBy(items, GroupKey))
    ensures KidsDone(objs0, BuildOne(s, parse, source, name, items).objects, parse, source, items, RefText(at))
    ensures RefText(at) in BuildOne(s, parse, source, name, items).fields
    ensures Unlisted(items, BuildOne(s, parse, source, name, items).fields)
  {
    PendingSort(objs0, s, items);
    var sorted := SortBy(items, GroupKey);
    BuildOneSorts(s, parse, source, name, items);
    var b := BuildSorted(s, parse, source, name, sorted);
    SortedParent(objs0, s, parse, source, name, sorted);
    SortedChildren(objs0, s, parse, source, name, sorted);
    SortedFieldsDone(objs0, s, parse, source, name, sorted);
    MembersDone(objs0, b.objects, b.fields, parse, source, items, sorted, RefText(s.nextXref));
  }

  /** A pending group, built with the counter at `at`, ends as `GroupDone` describes. */
  lemma BuildOneDone(objs0: Objects, at: nat, s: Built, parse: string -> Dictionary, source: Dictionary -> string,
                     name: string, items: seq<Member>)
    requires Pending(objs0, s, items) && at == s.nextXref
    ensures GroupDone(objs0, at, parse, source, name, items, BuildOne(s, parse, source, name, items))
  {
    BuildOneParts(objs0, s, parse, source, name, items, at);
    GroupDoneIntro(objs0, at, parse, source, name, items, BuildOne(s, parse, source, name, items));
  }

  /** The clauses of `GroupDone`, gathered; the body is empty, as the lemma only packs them into one fact for the solver. */
  lemma GroupDoneIntro(objs0: Objects, at: nat, parse: string -> Dictionary, source: Dictionary -> string,
                       name: string, items: seq<Member>, r: Built)
    requires items != []
    requires at in r.objects && r.objects[at] == GroupParent(objs0, name, SortBy(items, GroupKey))
    requires KidsDone(objs0, r.objects, parse, source, items, RefText(at))
    requires RefText(at) in r.fields
    requires Unlisted(items, r.fields)
    ensures GroupDone(objs0, at, parse, source, name, items, r)
  {
  }

  /** Building a pending group leaves alone an object that is neither one of its members nor the target of one's `/AP`. */
  lemma BuildOneKeeps(objs0: Objects, s: Built, parse: string -> Dictionary, source: Dictionary -> string,
                      name: string, items: seq<Member>, y: nat)
    requires Pending(objs0, s, items) && y in s.objects
    requires y !in objs0 || forall n :: n in items ==> n.widget.xref != y && ApTarget(objs0, n.widget.xref) != Some(y)
    ensures BuildOne(s, parse, source, name, items).objects[y] == s.objects[y]
  {
    PendingSort(objs0, s, items);
    var sorted := SortBy(items, GroupKey);
    BuildOneSorts(s, parse, source, name, items);
    forall i | 0 <= i < |sorted|
      ensures y !in objs0 || (sorted[i].widget.xref != y && ApTarget(objs0, sorted[i].widget.xref) != Some(y))
    {
      assert sorted[i] in items;
    }
    SortedKeeps(objs0, s, parse, source, name, sorted, y);
  }

  /** A pending group's member with a sole `/AP` target ends as `TargetDone` describes against `objs0`. */
  lemma SortedTarget(objs0: Objects, s: Built, parse: string -> Dictionary, source: Dictionary -> string, name: string,
                     sorted: seq<Member>, i: nat)
    requires Pending(objs0, s, sorted) && i < |sorted|
    requires forall n :: n in sorted && n.widget.xref != sorted[i].widget.xref ==>
      ApTarget(objs0, n.widget.xref) != ApTarget(objs0, sorted[i].widget.xref)
    requires ApTarget(objs0, sorted[i].widget.xref).Some? && ApTarget(objs0, sorted[i].widget.xref).value in objs0 ==>
      s.objects[ApTarget(objs0, sorted[i].widget.xref).value] == objs0[ApTarget(objs0, sorted[i].widget.xref).value]
    ensures TargetDone(objs0, BuildSorted(s, parse, source, name, sorted).objects, parse, source, sorted[i])
  {
    SameMembers(objs0, s.objects, sorted);
    forall j | 0 <= j < |sorted| && j != i
      ensures ApTarget(s.objects, sorted[j].widget.xref) != ApTarget(s.objects, sorted[i].widget.xref)
    {
      assert sorted[j] in sorted;
    }
    BuildChildren(s, parse, source, name, sorted);
    TargetDoneBase(objs0, s.objects, BuildSorted(s, parse, source, name, sorted).objects, parse, source, sorted[i]);
  }

  /**
   * Building a pending group leaves the target of a member's indirect `/AP`,
   * when no other member's `/AP` names it and it is still as in `objs0`,
   * holding what that member's rename writes.
   */
  lemma BuildOneTarget(objs0: Objects, s: Built, parse: string -> Dictionary, source: Dictionary -> string,
                       name: string, items: seq<Member>, m: Member)
    requires Pending(objs0, s, items) && m in items
    requires forall n :: n in items && n.widget.xref != m.widget.xref ==> ApTarget(objs0, n.widget.xref) != ApTarget(objs0, m.widget.xref)
    requires ApTarget(objs0, m.widget.xref).Some? && ApTarget(objs0, m.widget.xref).value in objs0 ==>
      s.objects[ApTarget(objs0, m.widget.xref).value] == objs0[ApTarget(objs0, m.widget.xref).value]
    ensures TargetDone(objs0, BuildOne(s, parse, source, name, items).objects, parse, source, m)
  {
    PendingSort(objs0, s, items);
    var sorted := SortBy(items, GroupKey);
    BuildOneSorts(s, parse, source, name, items);
    var i :| 0 <= i < |sorted| && sorted[i] == m;
    SortedTarget(objs0, s, parse, source, name, sorted, i);
  }

  /** The children and the `fields_entries` of a group already built, kept while a pending group is built. */
  lemma BuildOneKeepsKids(objs0: Objects, s: Built, parse: string -> Dictionary, source: Dictionary -> string,
                          items: seq<Member>, parentRef: string, nameK: string, itemsK: seq<Member>)
    requires Pending(objs0, s, itemsK)
    requires KidsDone(objs0, s.objects, parse, source, items, parentRef) && Unlisted(items, s.fields)
    requires forall m, n :: m in items && n in itemsK ==> n.widget.xref != m.widget.xref && ApTarget(objs0, n.widget.xref) != Some(m.widget.xref)
    ensures var b := BuildOne(s, parse, source, nameK, itemsK);
      KidsDone(objs0, b.objects, parse, source, items, parentRef)
    ensures var b := BuildOne(s, parse, source, nameK, itemsK);
      Unlisted(items, b.fields)
  {
    var b := BuildOne(s, parse, source, nameK, itemsK);
    PendingSort(objs0, s, itemsK);
    BuildOneSorts(s, parse, source, nameK, itemsK);
    SortedFields(objs0, s, parse, source, nameK, SortBy(itemsK, GroupKey));
    forall m | m in items
      ensures ChildDone(objs0, b.objects, parse, source, m, parentRef)
      ensures RefText(m.widget.xref) !in b.fields
    {
      BuildOneKeepsMember(objs0, s, parse, source, nameK, itemsK, m);
      ChildDoneFrame(objs0, s.objects, b.objects, parse, source, m, parentRef);
      if RefText(m.widget.xref) == RefText(s.nextXref) {
        RefTextInjective(m.widget.xref, s.nextXref);
      }
    }
  }

  /** The parent of a group already built, and its reference in `fields_entries`, kept while a pending group is built. */
  lemma BuildOneKeepsParent(objs0: Objects, s: Built, parse: string -> Dictionary, source: Dictionary -> string,
                            at: nat, nameK: string, itemsK: seq<Member>)
    requires Pending(objs0, s, itemsK) && at !in objs0 && at in s.objects && RefText(at) in s.fields
    ensures var b := BuildOne(s, parse, source, nameK, itemsK);
      at in b.objects && b.objects[at] == s.objects[at] && RefText(at) in b.fields
  {
    BuildOneKeeps(objs0, s, parse, source, nameK, itemsK, at);
    PendingSort(objs0, s, itemsK);
    BuildOneSorts(s, parse, source, nameK, itemsK);
    SortedFields(objs0, s, parse, source, nameK, SortBy(itemsK, GroupKey));
  }

  /**
   * A group already built stays built while a pending group, none of whose
   * members is one of its members or the target of one's `/AP`, is built.
   */
  lemma BuildOneKeepsDone(objs0: Objects, at: nat, s: Built, parse: string -> Dictionary, source: Dictionary -> string,
                          name: string, items: seq<Member>, nameK: string, itemsK: seq<Member>)
    requires Pending(objs0, s, itemsK) && at !in objs0
    requires GroupDone(objs0, at, parse, source, name, items, s)
    requires forall m, n :: m in items && n in itemsK ==> n.widget.xref != m.widget.xref && ApTarget(objs0, n.widget.xref) != Some(m.widget.xref)
    ensures GroupDone(objs0, at, parse, source, name, items, BuildOne(s, parse, source, nameK, itemsK))
  {
    BuildOneKeepsParts(objs0, at, s, parse, source, name, items, nameK, itemsK);
    GroupDoneIntro(objs0, at, parse, source, name, items, BuildOne(s, parse, source, nameK, itemsK));
  }

  /** What `BuildOneKeepsDone` states, clause by clause. */
  lemma BuildOneKeepsParts(objs0: Objects, at: nat, s: Built, parse: string -> Dictionary, source: Dictionary -> string,
                           name: string, items: seq<Member>, nameK: string, itemsK: seq<Member>)
    requires Pending(objs0, s, itemsK) && at !in objs0
    requires GroupDone(objs0, at, parse, source, name, items, s)
    requires forall m, n :: m in items && n in itemsK ==> n.widget.xref != m.widget.xref && ApTarget(objs0, n.widget.xref) != Some(m.widget.xref)
    ensures var b := BuildOne(s, parse, source, nameK, itemsK);
      at in b.objects && b.objects[at] == GroupParent(objs0, name, SortBy(items, GroupKey))
    ensures var b := BuildOne(s, parse, source, nameK, itemsK);
      KidsDone(objs0, b.objects, parse, source, items, RefText(at))
    ensures var b := BuildOne(s, parse, source, nameK, itemsK);
      RefText(at) in b.fields
    ensures var b := BuildOne(s, parse, source, nameK, itemsK);
      Unlisted(items, b.fields)
  {
    BuildOneKeepsParent(objs0, s, parse, source, at, nameK, itemsK);
    BuildOneKeepsKids(objs0, s, parse, source, items, RefText(at), nameK, itemsK);
  }

  /** The members of other groups keep their objects while a pending group is built. */
  lemma BuildOneKeepsMember(objs0: Objects, s: Built, parse: string -> Dictionary, source: Dictionary -> string,
                            name: string, items: seq<Member>, m: Member)
    requires Pending(objs0, s, items) && m.widget.xref in s.objects
    requires forall n :: n in items ==> n.widget.xref != m.widget.xref && ApTarget(objs0, n.widget.xref) != Some(m.widget.xref)
    ensures BuildOne(s, parse, source, name, items).objects[m.widget.xref] == s.objects[m.widget.xref]
  {
    BuildOneKeeps(objs0, s, parse, source, name, items, m.widget.xref);
  }

  /** `fields_entries` after a pending group: nothing enters but the new parent's reference. */
  lemma BuildOneRefs(objs0: Objects, s: Built, parse: string -> Dictionary, source: Dictionary -> string,
                     name: string, items: seq<Member>)
    requires Pending(objs0, s, items) && forall t :: t in s.fields ==> IsRef(t)
    ensures forall t :: t in BuildOne(s, parse, source, name, items).fields ==> IsRef(t)
  {
    PendingSort(objs0, s, items);
    BuildOneSorts(s, parse, source, name, items);
    SortedFields(objs0, s, parse, source, name, SortBy(items, GroupKey));
    RefTextRoundTrip(s.nextXref);
  }

  /** The k-th group is pending when the first k are built. */
  lemma StepPending(objs0: Objects, next0: nat, parse: string -> Dictionary, source: Dictionary -> string,
                    g: Groups, k: nat, s: Built)
    requires Building(objs0, next0, parse, source, g, k, s) && k < |g.names|
    ensures g.names[k] in g.members && Grp(g, k) == g.members[g.names[k]]
    ensures Pending(objs0, s, Grp(g, k))
  {
    var items := Grp(g, k);
    assert g.names[k] in g.members;
    forall i | 0 <= i < |items|
      ensures items[i].widget.xref in s.objects && s.objects[items[i].widget.xref] == objs0[items[i].widget.xref]
    {
      assert items[i] in Grp(g, k);
    }
  }

  /** No object of a counted table is at or above the counter; the body is empty, as the lemma only names the instance for the solver. */
  lemma AboveCounted(objs: Objects, next: nat, j: nat)
    requires Counted(objs, next)
    ensures next + j !in objs
  {
  }

  /** The members of two different groups that are apart neither share nor name an object; the body is empty, as the lemma only instantiates `Apart` for the pair. */
  lemma ApartPair(g: Groups, objs: Objects, j: nat, k: nat)
    requires Apart(g, objs) && j != k
    ensures forall m, n :: m in Grp(g, j) && n in Grp(g, k) ==>
      n.widget.xref != m.widget.xref && ApTarget(objs, n.widget.xref) != Some(m.widget.xref)
  {
  }

  /** A group built before the k-th stays built while the k-th is built. */
  lemma BuildingKeeps(objs0: Objects, next0: nat, parse: string -> Dictionary, source: Dictionary -> string,
                      g: Groups, k: nat, s: Built, j: nat, at: nat)
    requires Pending(objs0, s, Grp(g, k)) && Counted(objs0, next0) && Apart(g, objs0)
    requires j < k < |g.names| && at == next0 + j
    requires GroupDone(objs0, at, parse, source, g.names[j], Grp(g, j), s)
    ensures GroupDone(objs0, at, parse, source, g.names[j], Grp(g, j), BuildOne(s, parse, source, g.names[k], Grp(g, k)))
  {
    AboveCounted(objs0, next0, j);
    ApartPair(g, objs0, j, k);
    BuildOneKeepsDone(objs0, at, s, parse, source, g.names[j], Grp(g, j), g.names[k], Grp(g, k));
  }

  /** The groups before the k-th and the k-th built are the groups up to the k-th built; the body is empty, as the lemma only folds the k-th fact into `DoneBefore`. */
  lemma DoneExtend(objs0: Objects, next0: nat, parse: string -> Dictionary, source: Dictionary -> string,
                   g: Groups, k: nat, at: nat, r: Built)
    requires k < |g.names| && at == next0 + k
    requires DoneBefore(objs0, next0, parse, source, g, k, r)
    requires GroupDone(objs0, at, parse, source, g.names[k], Grp(g, k), r)
    ensures DoneBefore(objs0, next0, parse, source, g, k + 1, r)
  {
  }

  /** One step keeps the building state, one group further on. */
  lemma BuildingStep(objs0: Objects, next0: nat, parse: string -> Dictionary, source: Dictionary -> string,
                     g: Groups, k: nat, s: Built)
    requires Building(objs0, next0, parse, source, g, k, s) && k < |g.names|
    ensures Building(objs0, next0, parse, source, g, k + 1, BuildOne(s, parse, source, g.names[k], Grp(g, k)))
  {
    StepPending(objs0, next0, parse, source, g, k, s);
    var items := Grp(g, k);
    BuildFromNext(s, parse, source, g, k);
    BuildOneRefs(objs0, s, parse, source, g.names[k], items);
    DoneStep(objs0, next0, parse, source, g, k, s, s.nextXref);
    PristineStep(objs0, parse, source, g, k, s);
  }

  /** Building the k-th group builds it and keeps the groups before it built. */
  lemma DoneStep(objs0: Objects, next0: nat, parse: string -> Dictionary, source: Dictionary -> string,
                 g: Groups, k: nat, s: Built, at: nat)
    requires Pending(objs0, s, Grp(g, k)) && Counted(objs0, next0) && Apart(g, objs0)
    requires k < |g.names| && s.nextXref == next0 + k && at == s.nextXref
    requires DoneBefore(objs0, next0, parse, source, g, k, s)
    ensures DoneBefore(objs0, next0, parse, source, g, k + 1, BuildOne(s, parse, source, g.names[k], Grp(g, k)))
  {
    var b := BuildOne(s, parse, source, g.names[k], Grp(g, k));
    forall j: nat, at': nat | j < k && at' == next0 + j
      ensures GroupDone(objs0, at', parse, source, g.names[j], Grp(g, j), b)
    {
      BuildingKeeps(objs0, next0, parse, source, g, k, s, j, at');
    }
    BuildOneDone(objs0, at, s, parse, source, g.names[k], Grp(g, k));
    DoneExtend(objs0, next0, parse, source, g, k, at, b);
  }

  /** Building the k-th group leaves the members of the later groups as they were. */
  lemma PristineStep(objs0: Objects, parse: string -> Dictionary, source: Dictionary -> string,
                     g: Groups, k: nat, s: Built)
    requires Pending(objs0, s, Grp(g, k)) && Apart(g, objs0) && k < |g.names|
    requires Pristine(objs0, g, k, s.objects)
    ensures Pristine(objs0, g, k + 1, BuildOne(s, parse, source, g.names[k], Grp(g, k)).objects)
  {
    var b := BuildOne(s, parse, source, g.names[k], Grp(g, k));
    forall j: nat, m | k + 1 <= j && m in Grp(g, j)
      ensures m.widget.xref in objs0 && m.widget.xref in b.objects && b.objects[m.widget.xref] == objs0[m.widget.xref]
    {
      BuildOneKeepsMember(objs0, s, parse, source, g.names[k], Grp(g, k), m);
    }
  }

  /** Building every remaining group leaves each group built. */
  lemma {:induction false} BuildFromGroups(objs0: Objects, next0: nat, parse: string -> Dictionary, source: Dictionary -> string,
                                           g: Groups, k: nat, s: Built)
    requires Building(objs0, next0, parse, source, g, k, s)
    ensures Building(objs0, next0, parse, source, g, |g.names|, BuildFrom(s, parse, source, g, k))
    decreases |g.names| - k
  {
    if k < |g.names| {
      StepPending(objs0, next0, parse, source, g, k, s);
      BuildingStep(objs0, next0, parse, source, g, k, s);
      BuildFromNext(s, parse, source, g, k);
      var b := BuildOne(s, parse, source, g.names[k], Grp(g, k));
      BuildFromGroups(objs0, next0, parse, source, g, k + 1, b);
    }
  }

  /** An object that no member of the groups from the k-th on is, and no such member's `/AP` names. */
  ghost predicate UntouchedFrom(objs0: Objects, g: Groups, k: nat, y: nat) {
    forall j: nat, m :: k <= j && m in Grp(g, j) ==> m.widget.xref != y && ApTarget(objs0, m.widget.xref) != Some(y)
  }

  /** Building the remaining groups leaves alone an object none of them touches. */
  lemma {:induction false} BuildFromKeeps(objs0: Objects, next0: nat, parse: string -> Dictionary, source: Dictionary -> string,
                                          g: Groups, k: nat, s: Built, y: nat)
    requires Building(objs0, next0, parse, source, g, k, s) && y in s.objects && UntouchedFrom(objs0, g, k, y)
    ensures BuildFrom(s, parse, source, g, k).objects[y] == s.objects[y]
    decreases |g.names| - k
  {
    if k < |g.names| {
      StepPending(objs0, next0, parse, source, g, k, s);
      BuildingStep(objs0, next0, parse, source, g, k, s);
      BuildFromNext(s, parse, source, g, k);
      BuildOneKeeps(objs0, s, parse, source, g.names[k], Grp(g, k), y);
      BuildFromKeeps(objs0, next0, parse, source, g, k + 1, BuildOne(s, parse, source, g.names[k], Grp(g, k)), y);
    }
  }

  /** No member's `/AP` but `m`'s names the target of `m`'s `/AP`, among all the groups. */
  ghost predicate SoleIn(objs0: Objects, g: Groups, m: Member) {
    forall j: nat, n :: n in Grp(g, j) && n.widget.xref != m.widget.xref ==> ApTarget(objs0, n.widget.xref) != ApTarget(objs0, m.widget.xref)
  }

  /** A member's sole `/AP` target is untouched by another group. */
  lemma TargetApart(objs0: Objects, g: Groups, j: nat, m: Member, k: nat, y: nat)
    requires Apart(g, objs0) && j != k && m in Grp(g, j) && SoleIn(objs0, g, m) && ApTarget(objs0, m.widget.xref) == Some(y)
    ensures forall n :: n in Grp(g, k) ==> n.widget.xref != y && ApTarget(objs0, n.widget.xref) != Some(y)
  {
    ApartPair(g, objs0, k, j);
  }

  /** A member's sole `/AP` target is untouched by the groups after the member's own. */
  lemma TargetUntouchedLater(objs0: Objects, g: Groups, j: nat, m: Member, y: nat)
    requires Apart(g, objs0) && m in Grp(g, j) && SoleIn(objs0, g, m) && ApTarget(objs0, m.widget.xref) == Some(y)
    ensures UntouchedFrom(objs0, g, j + 1, y)
  {
    forall k: nat, n | j + 1 <= k && n in Grp(g, k)
      ensures n.widget.xref != y && ApTarget(objs0, n.widget.xref) != Some(y)
    {
      TargetApart(objs0, g, j, m, k, y);
    }
  }

  /** Building the remaining groups leaves a member's sole `/AP` target as its own rename writes it. */
  lemma {:induction false} BuildFromTarget(objs0: Objects, next0: nat, parse: string -> Dictionary, source: Dictionary -> string,
                                           g: Groups, k: nat, s: Built, j: nat, m: Member)
    requires Building(objs0, next0, parse, source, g, k, s) && k <= j && m in Grp(g, j) && SoleIn(objs0, g, m)
    requires ApTarget(objs0, m.widget.xref).Some? && ApTarget(objs0, m.widget.xref).value in objs0 ==>
      s.objects[ApTarget(objs0, m.widget.xref).value] == objs0[ApTarget(objs0, m.widget.xref).value]
    ensures TargetDone(objs0, BuildFrom(s, parse, source, g, k).objects, parse, source, m)
    decreases |g.names| - k
  {
    var t := ApTarget(objs0, m.widget.xref);
    if t.Some? && t.value in objs0 {
      StepPending(objs0, next0, parse, source, g, k, s);
      BuildingStep(objs0, next0, parse, source, g, k, s);
      BuildFromNext(s, parse, source, g, k);
      var b := BuildOne(s, parse, source, g.names[k], Grp(g, k));
      if k < j {
        TargetApart(objs0, g, j, m, k, t.value);
        BuildOneKeeps(objs0, s, parse, source, g.names[k], Grp(g, k), t.value);
        BuildFromTarget(objs0, next0, parse, source, g, k + 1, b, j, m);
      } else {
        BuildOneTarget(objs0, s, parse, source, g.names[k], Grp(g, k), m);
        TargetUntouchedLater(objs0, g, j, m, t.value);
        BuildFromKeeps(objs0, next0, parse, source, g, k + 1, b, t.value);
      }
    }
  }

  /** Every token of a list of reference tokens is one, position by position. */
  lemma {:induction false} AllRefsElements(refs: seq<string>)
    requires AllRefs(refs)
    ensures forall t :: t in refs ==> IsRef(t)
    decreases |refs|
  {
    if refs != [] {
      AllRefsElements(refs[1..]);
      assert forall t :: t in refs ==> t == refs[0] || t in refs[1..];
    }
  }

  /** Building starts from the table, the counter and the `/Fields` entries the pass reads. */
  lemma BuildingStart(objs: Objects, next: nat, fields: seq<string>, parse: string -> Dictionary, source: Dictionary -> string, g: Groups)
    requires Ready(g, Built(objs, next, fields, false)) && Apart(g, objs)
    requires forall t :: t in fields ==> IsRef(t)
    ensures Building(objs, next, parse, source, g, 0, Built(objs, next, fields, false))
  {
    forall j: nat, m | m in Grp(g, j)
      ensures m.widget.xref in objs
    {
      var i :| 0 <= i < |Grp(g, j)| && Grp(g, j)[i] == m;
    }
  }

  /**
   * Building all the groups from the table `objs`, with distinct, linked
   * members none of which is another's `/AP` target, leaves the j-th group
   * with its parent at the j-th fresh number, every member a kid of it, and
   * `fields_entries` holding the parent's reference and no member's.
   */
  lemma BuildAllGroups(objs: Objects, next: nat, fields: seq<string>, parse: string -> Dictionary, source: Dictionary -> string, g: Groups)
    requires Ready(g, Built(objs, next, fields, false)) && Apart(g, objs)
    requires forall t :: t in fields ==> IsRef(t)
    ensures var r := BuildFrom(Built(objs, next, fields, false), parse, source, g, 0);
      (forall t :: t in r.fields ==> IsRef(t))
      && DoneBefore(objs, next, parse, source, g, |g.names|, r)
  {
    var s := Built(objs, next, fields, false);
    BuildingStart(objs, next, fields, parse, source, g);
    BuildFromGroups(objs, next, parse, source, g, 0, s);
  }

  /**
   * The group `name` with members `items`, as the pass leaves the table
   * `objs`: its parent at the object `at` holding the parent dictionary
   * over the members in key order, every member a kid of it, and the
   * `/Fields` of the AcroForm object listing the parent and no member.
   */
  ghost predicate GroupWritten(objs0: Objects, at: nat, parse: string -> Dictionary, source: Dictionary -> string,
                               name: string, items: seq<Member>, objs: Objects, acroform: nat) {
    items != []
    && at in objs && objs[at] == GroupParent(objs0, name, SortBy(items, GroupKey))
    && (forall m :: m in items ==> m.widget.xref in objs0 && ChildDone(objs0, objs, parse, source, m, RefText(at)))
    && RefText(at) in FieldsEntries(objs, acroform)
    && (forall m :: m in items ==> RefText(m.widget.xref) !in FieldsEntries(objs, acroform))
  }

  /** A group built stays built when `/Fields` of the AcroForm object, neither the parent nor a member, is written back. */
  lemma WrittenBackDone(objs0: Objects, at: nat, parse: string -> Dictionary, source: Dictionary -> string,
                        name: string, items: seq<Member>, b: Built, acroform: nat)
    requires GroupDone(objs0, at, parse, source, name, items, b)
    requires acroform in b.objects && acroform != at && AllRefs(b.fields)
    requires forall m :: m in items ==> m.widget.xref != acroform
    ensures GroupWritten(objs0, at, parse, source, name, items,
                         WithKey(b.objects, acroform, "Fields", Value(Array, FormatRefArray(b.fields))), acroform)
  {
    var r := WithKey(b.objects, acroform, "Fields", Value(Array, FormatRefArray(b.fields)));
    FormatThenParse(b.fields);
    assert FieldsEntries(r, acroform) == b.fields;
    forall m | m in items
      ensures ChildDone(objs0, r, parse, source, m, RefText(at))
    {
      ChildDoneFrame(objs0, b.objects, r, parse, source, m, RefText(at));
    }
  }

  /** Every group built stays built when `/Fields` of the AcroForm object, which no member is, is written back. */
  lemma AllWrittenBack(objs0: Objects, next0: nat, parse: string -> Dictionary, source: Dictionary -> string,
                       g: Groups, b: Built, acroform: nat, objs: Objects)
    requires DoneBefore(objs0, next0, parse, source, g, |g.names|, b)
    requires acroform in b.objects && acroform < next0 && AllRefs(b.fields)
    requires forall j: nat, m :: m in Grp(g, j) ==> m.widget.xref != acroform
    requires objs == WithKey(b.objects, acroform, "Fields", Value(Array, FormatRefArray(b.fields)))
    ensures AllWritten(objs0, next0, parse, source, g, objs, acroform)
  {
    forall j: nat, at: nat | j < |g.names| && at == next0 + j
      ensures GroupWritten(objs0, at, parse, source, g.names[j], Grp(g, j), objs, acroform)
    {
      WrittenBackDone(objs0, at, parse, source, g.names[j], Grp(g, j), b, acroform);
    }
  }

  /** Every group is written as `GroupWritten` describes, the j-th with its parent at the object `next0 + j`. */
  ghost predicate AllWritten(objs0: Objects, next0: nat, parse: string -> Dictionary, source: Dictionary -> string,
                             g: Groups, objs: Objects, acroform: nat) {
    forall j: nat, at: nat :: j < |g.names| && at == next0 + j ==>
      GroupWritten(objs0, at, parse, source, g.names[j], Grp(g, j), objs, acroform)
  }

  /** No member of a group is the AcroForm object when no widget is. */
  lemma MembersNotAcroform(widgets: seq<Widget>, g: Groups, acroform: nat)
    requires forall i :: 0 <= i < |widgets| ==> widgets[i].xref != acroform
    requires forall n, i :: n in g.members && 0 <= i < |g.members[n]| ==> g.members[n][i].widget in widgets
    ensures forall j: nat, m :: m in Grp(g, j) ==> m.widget.xref != acroform
  {
    forall j: nat, m | m in Grp(g, j)
      ensures m.widget.xref != acroform
    {
      var i :| 0 <= i < |Grp(g, j)| && Grp(g, j)[i] == m;
      assert g.members[g.names[j]][i].widget in widgets;
    }
  }

  /** With a group built, the pass writes `/Fields` back from what the building left. */
  lemma GroupPassWrites(objs: Objects, next: nat, acroform: nat, parse: string -> Dictionary, source: Dictionary -> string,
                        pool: Pool, widgets: seq<Widget>)
    requires acroform in objs && Counted(objs, next) && ValidPool(pool)
    requires forall i :: 0 <= i < |widgets| ==> widgets[i].xref in objs
    requires AssignAll(widgets, pool).groups.names != []
    ensures var g := AssignAll(widgets, pool).groups;
      Ready(g, Built(objs, next, FieldsEntries(objs, acroform), false))
      && var b := BuildFrom(Built(objs, next, FieldsEntries(objs, acroform), false), parse, source, g, 0);
      acroform in b.objects
      && GroupPass(objs, next, acroform, parse, source, pool, widgets).objects
         == WithKey(b.objects, acroform, "Fields", Value(Array, FormatRefArray(b.fields)))
  {
    var g := AssignAll(widgets, pool).groups;
    GroupsReady(widgets, pool, objs);
    BuildFromCount(Built(objs, next, FieldsEntries(objs, acroform), false), parse, source, g, 0);
  }

  /** The object `x`'s `/AP` target and indirect `/Parent`, when it has them, are objects of the table. */
  ghost predicate LinkedAt(objs: Objects, x: nat) {
    (ApTarget(objs, x).Some? ==> ApTarget(objs, x).value in objs)
    && (KeyOf(objs, x, "Parent").kind == Xref ==>
          RefTarget(KeyOf(objs, x, "Parent").raw).Some? && RefTarget(KeyOf(objs, x, "Parent").raw).value in objs)
  }

  /** A member of a group is one of the widgets. */
  lemma GrpFromWidgets(g: Groups, widgets: seq<Widget>, j: nat, m: Member)
    requires forall n, i :: n in g.members && 0 <= i < |g.members[n]| ==> g.members[n][i].widget in widgets
    requires m in Grp(g, j)
    ensures j < |g.names| && m.widget in widgets
  {
    var i :| 0 <= i < |Grp(g, j)| && Grp(g, j)[i] == m;
    assert g.members[g.names[j]][i].widget in widgets;
  }

  /** One group of distinct, linked widgets naming no widget by `/AP` is separate and linked. */
  lemma GroupApart(g: Groups, widgets: seq<Widget>, objs: Objects, k: nat)
    requires GroupsIn(g, objs) && Unshared(g)
    requires k < |g.names| && g.names[k] in g.members && g.members[g.names[k]] != []
    requires forall n, i :: n in g.members && 0 <= i < |g.members[n]| ==> g.members[n][i].widget in widgets
    requires forall i :: 0 <= i < |widgets| ==> LinkedAt(objs, widgets[i].xref)
    requires forall i, j :: 0 <= i < |widgets| && 0 <= j < |widgets| ==> ApTarget(objs, widgets[i].xref) != Some(widgets[j].xref)
    ensures Grp(g, k) != [] && Separate(objs, Grp(g, k)) && Linked(objs, Grp(g, k))
  {
    var ms := g.members[g.names[k]];
    assert Grp(g, k) == ms;
    forall i | 0 <= i < |ms|
      ensures LinkedAt(objs, ms[i].widget.xref)
      ensures forall i' :: 0 <= i' < |ms| ==> ApTarget(objs, ms[i].widget.xref) != Some(ms[i'].widget.xref)
    {
      assert ms[i].widget in widgets;
      var a :| 0 <= a < |widgets| && widgets[a] == ms[i].widget;
      forall i' | 0 <= i' < |ms|
        ensures ApTarget(objs, ms[i].widget.xref) != Some(ms[i'].widget.xref)
      {
        assert ms[i'].widget in widgets;
        var b :| 0 <= b < |widgets| && widgets[b] == ms[i'].widget;
      }
    }
  }

  /** Members of two groups of distinct widgets naming no widget by `/AP` neither share nor name an object. */
  lemma GroupsCrossApart(g: Groups, widgets: seq<Widget>, objs: Objects, j: nat, k: nat, m: Member, n: Member)
    requires Tables.Distinct(g.names) && Unshared(g)
    requires forall n, i :: n in g.members && 0 <= i < |g.members[n]| ==> g.members[n][i].widget in widgets
    requires forall i, j :: 0 <= i < |widgets| && 0 <= j < |widgets| ==> ApTarget(objs, widgets[i].xref) != Some(widgets[j].xref)
    requires j != k && m in Grp(g, j) && n in Grp(g, k)
    ensures m.widget.xref != n.widget.xref && ApTarget(objs, m.widget.xref) != Some(n.widget.xref)
  {
    GrpFromWidgets(g, widgets, j, m);
    GrpFromWidgets(g, widgets, k, n);
    var a :| 0 <= a < |widgets| && widgets[a] == m.widget;
    var b :| 0 <= b < |widgets| && widgets[b] == n.widget;
    var i :| 0 <= i < |Grp(g, j)| && Grp(g, j)[i] == m;
    var i' :| 0 <= i' < |Grp(g, k)| && Grp(g, k)[i'] == n;
    assert g.names[j] != g.names[k];
    assert g.members[g.names[j]][i] == m && g.members[g.names[k]][i'] == n;
  }

  /** Groups whose members are distinct, linked widgets naming no widget by `/AP` are apart. */
  lemma GroupsApart(g: Groups, widgets: seq<Widget>, objs: Objects)
    requires Tables.Distinct(g.names) && GroupsIn(g, objs) && Unshared(g)
    requires forall k :: 0 <= k < |g.names| ==> g.names[k] in g.members && g.members[g.names[k]] != []
    requires forall n, i :: n in g.members && 0 <= i < |g.members[n]| ==> g.members[n][i].widget in widgets
    requires forall i :: 0 <= i < |widgets| ==> LinkedAt(objs, widgets[i].xref)
    requires forall i, j :: 0 <= i < |widgets| && 0 <= j < |widgets| ==> ApTarget(objs, widgets[i].xref) != Some(widgets[j].xref)
    ensures Apart(g, objs)
  {
    forall k: nat | k < |g.names|
      ensures Grp(g, k) != [] && Separate(objs, Grp(g, k)) && Linked(objs, Grp(g, k))
    {
      GroupApart(g, widgets, objs, k);
    }
    forall j: nat, k: nat, m, n | j != k && m in Grp(g, j) && n in Grp(g, k)
      ensures m.widget.xref != n.widget.xref && ApTarget(objs, m.widget.xref) != Some(n.widget.xref)
    {
      GroupsCrossApart(g, widgets, objs, j, k, m, n);
    }
  }

  /**
   * When the widgets are distinct objects, each linked, and none names a
   * widget by its `/AP`, the groups the matching loop forms are apart.
   */
  lemma ApartFromWidgets(widgets: seq<Widget>, pool: Pool, objs: Objects)
    requires ValidPool(pool)
    requires forall i :: 0 <= i < |widgets| ==> widgets[i].xref in objs && LinkedAt(objs, widgets[i].xref)
    requires forall i, j :: 0 <= i < j < |widgets| ==> widgets[i].xref != widgets[j].xref
    requires forall i, j :: 0 <= i < |widgets| && 0 <= j < |widgets| ==> ApTarget(objs, widgets[i].xref) != Some(widgets[j].xref)
    ensures Apart(AssignAll(widgets, pool).groups, objs)
  {
    GroupsReady(widgets, pool, objs);
    AssignAllSpec(widgets, pool);
    AssignUnshared(widgets, pool);
    AssignedFromWidgets(widgets, pool);
    GroupsApart(AssignAll(widgets, pool).groups, widgets, objs);
  }

  /**
   * What the pass leaves for each group, when the widgets are distinct
   * objects of the table other than the AcroForm object, each one's `/AP`
   * target and indirect `/Parent` exist, and no widget's `/AP` names a
   * widget: the j-th group's parent is the object `next + j`, holding the
   * parent dictionary over its members in `GroupKey` order; every member is
   * a kid of that parent; and the `/Fields` written back lists the parent
   * and none of the members.
   */
  lemma GroupPassGroups(objs: Objects, next: nat, acroform: nat, parse: string -> Dictionary, source: Dictionary -> string,
                        pool: Pool, widgets: seq<Widget>)
    requires acroform in objs && Counted(objs, next) && ValidPool(pool)
    requires forall i :: 0 <= i < |widgets| ==> widgets[i].xref in objs && widgets[i].xref != acroform && LinkedAt(objs, widgets[i].xref)
    requires forall i, j :: 0 <= i < j < |widgets| ==> widgets[i].xref != widgets[j].xref
    requires forall i, j :: 0 <= i < |widgets| && 0 <= j < |widgets| ==> ApTarget(objs, widgets[i].xref) != Some(widgets[j].xref)
    ensures var g := AssignAll(widgets, pool).groups;
      var r := GroupPass(objs, next, acroform, parse, source, pool, widgets);
      AllWritten(objs, next, parse, source, g, r.objects, acroform)
  {
    var g := AssignAll(widgets, pool).groups;
    GroupsReady(widgets, pool, objs);
    ApartFromWidgets(widgets, pool, objs);
    var fields := FieldsEntries(objs, acroform);
    ParsedAreRefs(KeyOf(objs, acroform, "Fields").raw);
    AllRefsElements(fields);
    BuildAllGroups(objs, next, fields, parse, source, g);
    if g.names != [] {
      GroupPassWrites(objs, next, acroform, parse, source, pool, widgets);
      var b := BuildFrom(Built(objs, next, fields, false), parse, source, g, 0);
      AllRefsAt(b.fields);
      AssignedFromWidgets(widgets, pool);
      MembersNotAcroform(widgets, g, acroform);
      AllWrittenBack(objs, next, parse, source, g, b, acroform, GroupPass(objs, next, acroform, parse, source, pool, widgets).objects);
    }
  }

  /**
   * What the pass leaves of every other object, under the hypotheses of
   * `GroupPassGroups`: an object of the table that is not the AcroForm
   * object, no member of any group and the `/AP` target of none is
   * unchanged.
   */
  lemma GroupPassFrame(objs: Objects, next: nat, acroform: nat, parse: string -> Dictionary, source: Dictionary -> string,
                       pool: Pool, widgets: seq<Widget>)
    requires acroform in objs && Counted(objs, next) && ValidPool(pool)
    requires forall i :: 0 <= i < |widgets| ==> widgets[i].xref in objs && widgets[i].xref != acroform && LinkedAt(objs, widgets[i].xref)
    requires forall i, j :: 0 <= i < j < |widgets| ==> widgets[i].xref != widgets[j].xref
    requires forall i, j :: 0 <= i < |widgets| && 0 <= j < |widgets| ==> ApTarget(objs, widgets[i].xref) != Some(widgets[j].xref)
    ensures var g := AssignAll(widgets, pool).groups;
      var r := GroupPass(objs, next, acroform, parse, source, pool, widgets);
      forall y :: y in objs && y != acroform && UntouchedFrom(objs, g, 0, y) ==> y in r.objects && r.objects[y] == objs[y]
  {
    var g := AssignAll(widgets, pool).groups;
    GroupsReady(widgets, pool, objs);
    ApartFromWidgets(widgets, pool, objs);
    var fields := FieldsEntries(objs, acroform);
    ParsedAreRefs(KeyOf(objs, acroform, "Fields").raw);
    AllRefsElements(fields);
    BuildingStart(objs, next, fields, parse, source, g);
    if g.names != [] {
      GroupPassWrites(objs, next, acroform, parse, source, pool, widgets);
    }
    forall y | y in objs && y != acroform && UntouchedFrom(objs, g, 0, y)
      ensures y in GroupPass(objs, next, acroform, parse, source, pool, widgets).objects
      ensures GroupPass(objs, next, acroform, parse, source, pool, widgets).objects[y] == objs[y]
    {
      BuildFromKeeps(objs, next, parse, source, g, 0, Built(objs, next, fields, false), y);
    }
  }

  /**
   * What the pass leaves in the objects that members' `/AP` entries name,
   * under the hypotheses of `GroupPassGroups`: the target of a member's
   * indirect `/AP`, when it is not the AcroForm object and no other member
   * of any group names it, holds what that member's rename writes
   * (python/generate_form.py:473-478, 623-624).
   */
  lemma GroupPassTargets(objs: Objects, next: nat, acroform: nat, parse: string -> Dictionary, source: Dictionary -> string,
                         pool: Pool, widgets: seq<Widget>)
    requires acroform in objs && Counted(objs, next) && ValidPool(pool)
    requires forall i :: 0 <= i < |widgets| ==> widgets[i].xref in objs && widgets[i].xref != acroform && LinkedAt(objs, widgets[i].xref)
    requires forall i, j :: 0 <= i < j < |widgets| ==> widgets[i].xref != widgets[j].xref
    requires forall i, j :: 0 <= i < |widgets| && 0 <= j < |widgets| ==> ApTarget(objs, widgets[i].xref) != Some(widgets[j].xref)
    ensures var g := AssignAll(widgets, pool).groups;
      var r := GroupPass(objs, next, acroform, parse, source, pool, widgets);
      forall j: nat, m :: m in Grp(g, j) && SoleIn(objs, g, m) && ApTarget(objs, m.widget.xref) != Some(acroform) ==>
        m.widget.xref in objs && TargetDone(objs, r.objects, parse, source, m)
  {
    var g := AssignAll(widgets, pool).groups;
    GroupsReady(widgets, pool, objs);
    ApartFromWidgets(widgets, pool, objs);
    var fields := FieldsEntries(objs, acroform);
    ParsedAreRefs(KeyOf(objs, acroform, "Fields").raw);
    AllRefsElements(fields);
    var s0 := Built(objs, next, fields, false);
    BuildingStart(objs, next, fields, parse, source, g);
    if g.names != [] {
      GroupPassWrites(objs, next, acroform, parse, source, pool, widgets);
    }
    forall j: nat, m | m in Grp(g, j) && SoleIn(objs, g, m) && ApTarget(objs, m.widget.xref) != Some(acroform)
      ensures m.widget.xref in objs && TargetDone(objs, GroupPass(objs, next, acroform, parse, source, pool, widgets).objects, parse, source, m)
    {
      BuildFromTarget(objs, next, parse, source, g, 0, s0, j, m);
    }
  }

  /** Whether an object is untouched by the groups depends only on the members' objects. */
  lemma UntouchedFromSame(objs: Objects, objs': Objects, g: Groups, widgets: seq<Widget>, y: nat)
    requires forall n, i :: n in g.members && 0 <= i < |g.members[n]| ==> g.members[n][i].widget in widgets
    requires forall i :: 0 <= i < |widgets| ==> widgets[i].xref in objs && widgets[i].xref in objs' && objs'[widgets[i].xref] == objs[widgets[i].xref]
    requires UntouchedFrom(objs, g, 0, y)
    ensures UntouchedFrom(objs', g, 0, y)
  {
    forall j: nat, m | m in Grp(g, j)
      ensures ApTarget(objs', m.widget.xref) == ApTarget(objs, m.widget.xref)
    {
      GrpFromWidgets(g, widgets, j, m);
      var a :| 0 <= a < |widgets| && widgets[a] == m.widget;
      assert ObjectOf(objs', m.widget.xref) == ObjectOf(objs, m.widget.xref);
    }
  }

  /** The object the catalog's `/AcroForm` names, when it is a readable reference. */
  ghost function AcroFormRef(objs: Objects, catalog: nat): Option<nat> {
    if KeyOf(objs, catalog, "AcroForm").kind == Xref then RefTarget(KeyOf(objs, catalog, "AcroForm").raw) else None
  }

  /** The AcroForm promotion keeps every widget's object, so the hypotheses on the widgets carry over. */
  lemma PromotedWidgets(objs: Objects, next: nat, catalog: nat, parse: string -> Dictionary, widgets: seq<Widget>)
    requires catalog in objs && Counted(objs, next)
    requires forall i :: 0 <= i < |widgets| ==> widgets[i].xref in objs && widgets[i].xref != catalog && LinkedAt(objs, widgets[i].xref)
    requires forall i :: 0 <= i < |widgets| ==> AcroFormRef(objs, catalog) != Some(widgets[i].xref)
    requires forall i, j :: 0 <= i < |widgets| && 0 <= j < |widgets| ==> ApTarget(objs, widgets[i].xref) != Some(widgets[j].xref)
    ensures var pr := EnsureAcroForm(objs, next, catalog, parse);
      Counted(pr.objects, pr.nextXref)
      && (forall x :: x in objs && x != catalog ==> x in pr.objects && pr.objects[x] == objs[x])
      && (forall i :: 0 <= i < |widgets| ==>
            widgets[i].xref in pr.objects && pr.objects[widgets[i].xref] == objs[widgets[i].xref]
            && LinkedAt(pr.objects, widgets[i].xref) && (pr.result.Ok? ==> widgets[i].xref != pr.result.value))
      && (forall i, j :: 0 <= i < |widgets| && 0 <= j < |widgets| ==> ApTarget(pr.objects, widgets[i].xref) != Some(widgets[j].xref))
  {
    var pr := EnsureAcroForm(objs, next, catalog, parse);
    EnsureAcroFormSpec(objs, next, catalog, parse);
    forall i | 0 <= i < |widgets|
      ensures ApTarget(pr.objects, widgets[i].xref) == ApTarget(objs, widgets[i].xref)
      ensures KeyOf(pr.objects, widgets[i].xref, "Parent") == KeyOf(objs, widgets[i].xref, "Parent")
    {
      assert ObjectOf(pr.objects, widgets[i].xref) == ObjectOf(objs, widgets[i].xref);
    }
  }

  /** The pass over the promoted table `o`, which differs from `objs` at most at the catalog, keeps the objects of `objs` it does not touch. */
  lemma PromotedPassFrame(objs: Objects, catalog: nat, o: Objects, n: nat, acroform: nat, parse: string -> Dictionary, source: Dictionary -> string,
                          pool: Pool, widgets: seq<Widget>)
    requires acroform in o && Counted(o, n) && ValidPool(pool)
    requires forall x :: x in objs && x != catalog ==> x in o && o[x] == objs[x]
    requires forall i :: 0 <= i < |widgets| ==>
      widgets[i].xref in objs && widgets[i].xref != catalog && widgets[i].xref != acroform && LinkedAt(o, widgets[i].xref)
    requires forall i, j :: 0 <= i < j < |widgets| ==> widgets[i].xref != widgets[j].xref
    requires forall i, j :: 0 <= i < |widgets| && 0 <= j < |widgets| ==> ApTarget(o, widgets[i].xref) != Some(widgets[j].xref)
    ensures var g := AssignAll(widgets, pool).groups;
      var r := GroupPass(o, n, acroform, parse, source, pool, widgets);
      forall y :: y in objs && y != catalog && y != acroform && UntouchedFrom(objs, g, 0, y) ==> y in r.objects && r.objects[y] == objs[y]
  {
    var g := AssignAll(widgets, pool).groups;
    AssignedFromWidgets(widgets, pool);
    GroupPassFrame(o, n, acroform, parse, source, pool, widgets);
    forall y | y in objs && y != catalog && y != acroform && UntouchedFrom(objs, g, 0, y)
      ensures UntouchedFrom(o, g, 0, y)
    {
      UntouchedFromSame(objs, o, g, widgets, y);
    }
  }

  /**
   * What the whole pass leaves of every other object, when the widgets are
   * distinct objects of the table other than the catalog and the object the
   * catalog's `/AcroForm` names, each one's `/AP` target and indirect
   * `/Parent` exist, and no widget's `/AP` names a widget: an object of the
   * table that is neither the catalog nor the AcroForm object, no member of
   * any group and the `/AP` target of none is unchanged.
   */
  lemma FixRadioGroupsFrame(objs: Objects, next: nat, catalog: nat, parse: string -> Dictionary, source: Dictionary -> string,
                            updates: seq<RawUpdate>, widgets: seq<Widget>)
    requires catalog in objs && Counted(objs, next)
    requires forall i :: 0 <= i < |widgets| ==> widgets[i].xref in objs && widgets[i].xref != catalog && LinkedAt(objs, widgets[i].xref)
    requires forall i :: 0 <= i < |widgets| ==> AcroFormRef(objs, catalog) != Some(widgets[i].xref)
    requires forall i, j :: 0 <= i < j < |widgets| ==> widgets[i].xref != widgets[j].xref
    requires forall i, j :: 0 <= i < |widgets| && 0 <= j < |widgets| ==> ApTarget(objs, widgets[i].xref) != Some(widgets[j].xref)
    ensures var r := FixRadioGroups(objs, next, catalog, parse, source, updates, widgets);
      var pr := EnsureAcroForm(objs, next, catalog, parse);
      var g := AssignAll(widgets, PoolOf(updates)).groups;
      forall y :: y in objs && y != catalog && (pr.result.Ok? ==> y != pr.result.value) && UntouchedFrom(objs, g, 0, y) ==>
        y in r.objects && r.objects[y] == objs[y]
  {
    var r := FixRadioGroups(objs, next, catalog, parse, source, updates, widgets);
    var pr := EnsureAcroForm(objs, next, catalog, parse);
    if updates != [] && pr.result.Ok? && pr.result.value in pr.objects {
      PromotedWidgets(objs, next, catalog, parse, widgets);
      PoolOfValid(updates);
      PromotedPassFrame(objs, catalog, pr.objects, pr.nextXref, pr.result.value, parse, source, PoolOf(updates), widgets);
      assert r == GroupPass(pr.objects, pr.nextXref, pr.result.value, parse, source, PoolOf(updates), widgets);
    } else if updates != [] {
      EnsureAcroFormSpec(objs, next, catalog, parse);
      assert r == DocState(pr.objects, pr.nextXref) && pr.objects == objs;
    }
  }
}
