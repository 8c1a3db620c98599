/**
 * Update records and the matching pop of `fix_radio_button_groups`: the
 * records are normalised and bucketed by field name
 * (python/generate_form.py:510-532), and `_pop_matching_update`
 * (python/generate_form.py:491-503) hands a widget the first record whose
 * rectangle and page agree with it, else the head of the list.
 */
module Updates {
  import opened Wrappers
  import opened Geometry
  import opened Sorting
  import opened Tables

  /** The `page_index` of a raw record: missing, an `int`, or a value of another type. */
  datatype RawPage = NoPage | IntPage(n: int) | OtherPage

  /**
   * An element of the `updates` list: a dict with the keys the pass reads
   * (a missing or falsy `rect` is None, a falsy `field_name` or `export` is
   * ""), or any value that is not a dict.
   */
  datatype RawUpdate =
    | NotARecord
    | Record(order: Option<int>, rect: Option<Rect>, page: RawPage, fieldName: string, exportName: string)

  /** A normalised record: `order` defaulted, `page_index` an int or None. */
  datatype Update = Update(order: int, rect: Option<Rect>, page: Option<int>, fieldName: string, exportName: string)

  /** The normalisation of the element at position `index` (python/generate_form.py:513-524). */
  function Normalize(raw: RawUpdate, index: nat): Option<Update> {
    match raw
    case NotARecord => None
    case Record(order, rect, page, fieldName, exportName) =>
      Some(Update(
        if order.Some? then order.value else index,
        rect,
        if page.IntPage? then Some(page.n) else None,
        fieldName,
        exportName))
  }

  /** The normalised records of `updates`, in list order; non-dict elements are dropped. */
  function Normalized(updates: seq<RawUpdate>): seq<Update> {
    if updates == [] then []
    else
      var last := Normalize(updates[|updates| - 1], |updates| - 1);
      Normalized(updates[..|updates| - 1]) + (if last.Some? then [last.value] else [])
  }

  /** The records whose field name is `name`, in order (`name == ""` gives the fallback list). */
  function Named(us: seq<Update>, name: string): seq<Update> {
    if us == [] then []
    else Named(us[..|us| - 1], name) + (if us[|us| - 1].fieldName == name then [us[|us| - 1]] else [])
  }

  /** The non-empty field names of `us`, in order of first appearance: the key order of `updates_by_field`. */
  function FieldNames(us: seq<Update>): seq<string> {
    if us == [] then []
    else
      var names := FieldNames(us[..|us| - 1]);
      var n := us[|us| - 1].fieldName;
      names + (if n != "" && n !in names then [n] else [])
  }

  /** The sort key of a bucket: `order` alone. */
  function OrderKey(u: Update): SortKey {
    SortKey(u.order, 0.0, 0.0, 0)
  }

  /** `Named` keeps exactly the records of the given field name, each as often as it occurs. */
  lemma {:induction false} NamedCount(us: seq<Update>, name: string, u: Update)
    ensures multiset(Named(us, name))[u] == if u.fieldName == name then multiset(us)[u] else 0
    decreases |us|
  {
    if us != [] {
      var init := us[..|us| - 1];
      NamedCount(init, name, u);
      assert us == init + [us[|us| - 1]];
    }
  }

  /** The field names are distinct. */
  lemma {:induction false} FieldNamesDistinct(us: seq<Update>)
    ensures forall i, j :: 0 <= i < j < |FieldNames(us)| ==> FieldNames(us)[i] != FieldNames(us)[j]
    decreases |us|
  {
    if us != [] {
      FieldNamesDistinct(us[..|us| - 1]);
    }
  }

  /** Every non-empty field name that occurs is a key. */
  lemma {:induction false} FieldNamesCover(us: seq<Update>, u: Update)
    requires u in us && u.fieldName != ""
    ensures u.fieldName in FieldNames(us)
    decreases |us|
  {
    var init := us[..|us| - 1];
    if u != us[|us| - 1] {
      assert us == init + [us[|us| - 1]];
      assert u in init;
      FieldNamesCover(init, u);
    }
  }

  /** A record whose rectangle and page agree with the widget's (python/generate_form.py:498-500). */
  predicate Matches(e: Update, rect: Rect, page: int) {
    e.rect.Some? && RectsClose(rect, e.rect.value) && (e.page.None? || e.page.value == page)
  }

  /** The position of the first matching record at or after `i`. */
  function FirstMatch(entries: seq<Update>, rect: Rect, page: int, i: nat): (r: Option<nat>)
    requires i <= |entries|
    ensures r.Some? ==> i <= r.value < |entries| && Matches(entries[r.value], rect, page)
    decreases |entries| - i
  {
    if i == |entries| then None
    else if Matches(entries[i], rect, page) then Some(i)
    else FirstMatch(entries, rect, page, i + 1)
  }

  /** The position `_pop_matching_update` pops: the first match, else the head; None for an empty list. */
  function PopIndex(entries: seq<Update>, rect: Rect, page: int): (r: Option<nat>)
    ensures r.Some? <==> entries != []
    ensures r.Some? ==> r.value < |entries|
  {
    if entries == [] then None
    else match FirstMatch(entries, rect, page, 0)
      case Some(k) => Some(k)
      case None => Some(0)
  }

  lemma {:induction false} FirstMatchIsFirst(entries: seq<Update>, rect: Rect, page: int, i: nat)
    requires i <= |entries|
    ensures FirstMatch(entries, rect, page, i).Some? ==>
      forall j :: i <= j < FirstMatch(entries, rect, page, i).value ==> !Matches(entries[j], rect, page)
    ensures FirstMatch(entries, rect, page, i).None? ==>
      forall j :: i <= j < |entries| ==> !Matches(entries[j], rect, page)
    decreases |entries| - i
  {
    if i < |entries| && !Matches(entries[i], rect, page) {
      FirstMatchIsFirst(entries, rect, page, i + 1);
    }
  }

  /**
   * The pop returns nothing only for an empty list; otherwise it takes the
   * lowest-index matching record, or the head when no record matches.
   */
  lemma PopIndexSpec(entries: seq<Update>, rect: Rect, page: int)
    ensures PopIndex(entries, rect, page).None? <==> entries == []
    ensures PopIndex(entries, rect, page).Some? ==>
      var k := PopIndex(entries, rect, page).value;
      (forall j :: 0 <= j < k ==> !Matches(entries[j], rect, page))
      && (Matches(entries[k], rect, page) || (k == 0 && forall j :: 0 <= j < |entries| ==> !Matches(entries[j], rect, page)))
  {
    FirstMatchIsFirst(entries, rect, page, 0);
  }

  /** What is left after popping position `k`: the other records in their order. */
  function Without(entries: seq<Update>, k: nat): (rest: seq<Update>)
    requires k < |entries|
    ensures |rest| == |entries| - 1
    ensures multiset(rest) + multiset{entries[k]} == multiset(entries)
    ensures forall i :: 0 <= i < |rest| ==> rest[i] == entries[if i < k then i else i + 1]
  {
    assert entries == entries[..k] + [entries[k]] + entries[k + 1..];
    entries[..k] + entries[k + 1..]
  }

  /** `_pop_matching_update`: the loop over the list and the in-place pop, returning the shortened list. */
  method PopMatching(entries: seq<Update>, rect: Rect, page: int) returns (e: Option<Update>, rest: seq<Update>)
    ensures e.None? <==> entries == []
    ensures match PopIndex(entries, rect, page)
      case None => e.None? && rest == entries
      case Some(k) => e == Some(entries[k]) && rest == Without(entries, k)
  {
    if entries == [] {
      return None, entries;
    }
    var idx := 0;
    while idx < |entries|
      invariant idx <= |entries|
      invariant FirstMatch(entries, rect, page, 0) == FirstMatch(entries, rect, page, idx)
    {
      var entry := entries[idx];
      if entry.rect.Some? && RectsClose(rect, entry.rect.value) && (entry.page.None? || entry.page.value == page) {
        return Some(entry), entries[..idx] + entries[idx + 1..];
      }
      idx := idx + 1;
    }
    return Some(entries[0]), entries[1..];
  }

  /**
   * `updates_by_field` and `fallback_updates`: the bucket keys in insertion
   * order, the bucket of each key, and the records without a field name.
   */
  datatype Pool = Pool(names: seq<string>, buckets: map<string, seq<Update>>, fallback: seq<Update>)

  /** The keys are distinct, non-empty, and exactly the keys of the map. */
  ghost predicate ValidPool(p: Pool) {
    (forall i, j :: 0 <= i < j < |p.names| ==> p.names[i] != p.names[j])
    && (forall n :: n in p.buckets <==> n in p.names)
    && "" !in p.names
  }

  /** Every record the pool still holds. */
  function Contents(p: Pool): multiset<Update> {
    Total(p.names, p.buckets) + multiset(p.fallback)
  }

  /** The bucket of `name`, or no records when there is none (`updates_by_field.get`). */
  function Bucket(p: Pool, name: string): seq<Update> {
    if name in p.buckets then p.buckets[name] else []
  }

  /** How often the buckets of `names` hold `u`, when each bucket holds the records of its own name. */
  lemma {:induction false} TotalNamed(names: seq<string>, buckets: map<string, seq<Update>>, us: seq<Update>, u: Update)
    requires forall i, j :: 0 <= i < j < |names| ==> names[i] != names[j]
    requires forall n :: n in names ==> n in buckets && multiset(buckets[n]) == multiset(Named(us, n))
    ensures Total(names, buckets)[u] == if u.fieldName in names then multiset(us)[u] else 0
    decreases |names|
  {
    if names != [] {
      TotalNamed(names[1..], buckets, us, u);
      NamedCount(us, names[0], u);
    }
  }

  lemma NamedStep(ns: seq<Update>, u: Update, n: string)
    ensures Named(ns + [u], n) == Named(ns, n) + (if u.fieldName == n then [u] else [])
    ensures FieldNames(ns + [u]) == FieldNames(ns) + (if u.fieldName != "" && u.fieldName !in FieldNames(ns) then [u.fieldName] else [])
  {
    assert (ns + [u])[..|ns|] == ns;
  }

  lemma NormalizedStep(updates: seq<RawUpdate>, i: nat)
    requires i < |updates|
    ensures Normalized(updates[..i + 1]) == Normalized(updates[..i])
      + (if updates[i].Record? then [Normalize(updates[i], i).value] else [])
  {
    assert updates[..i + 1][..i] == updates[..i];
  }

  /** The lists built so far hold the records `ns` by field name, keys in first-appearance order. */
  ghost predicate Bucketed(ns: seq<Update>, names: seq<string>, buckets: map<string, seq<Update>>, fallback: seq<Update>) {
    names == FieldNames(ns)
    && (forall n :: n in buckets <==> n in names)
    && (forall n :: n in buckets ==> buckets[n] == Named(ns, n))
    && fallback == Named(ns, "")
  }

  /** A non-empty name that has not appeared has no records yet. */
  lemma {:induction false} NamedAbsent(ns: seq<Update>, n: string)
    requires n != "" && n !in FieldNames(ns)
    ensures Named(ns, n) == []
    decreases |ns|
  {
    if ns != [] {
      NamedAbsent(ns[..|ns| - 1], n);
    }
  }

  /** The empty name never becomes a bucket key. */
  lemma {:induction false} EmptyNotFieldName(ns: seq<Update>)
    ensures "" !in FieldNames(ns)
    decreases |ns|
  {
    if ns != [] {
      EmptyNotFieldName(ns[..|ns| - 1]);
    }
  }

  lemma NamedAll(ns: seq<Update>, u: Update)
    ensures forall n :: Named(ns + [u], n) == Named(ns, n) + (if u.fieldName == n then [u] else [])
    ensures FieldNames(ns + [u]) == FieldNames(ns) + (if u.fieldName != "" && u.fieldName !in FieldNames(ns) then [u.fieldName] else [])
  {
    forall n
      ensures Named(ns + [u], n) == Named(ns, n) + (if u.fieldName == n then [u] else [])
    {
      NamedStep(ns, u, n);
    }
  }

  /** A record whose field name has no bucket yet starts a new bucket holding just that record. */
  lemma BucketNew(ns: seq<Update>, u: Update, names: seq<string>, buckets: map<string, seq<Update>>, fallback: seq<Update>)
    requires Bucketed(ns, names, buckets, fallback) && u.fieldName != "" && u.fieldName !in buckets
    ensures Bucketed(ns + [u], names + [u.fieldName], buckets[u.fieldName := [u]], fallback)
  {
    EmptyNotFieldName(ns);
    NamedAbsent(ns, u.fieldName);
    NamedAll(ns, u);
  }

  /** A record whose field name has a bucket is appended to it. */
  lemma BucketExisting(ns: seq<Update>, u: Update, names: seq<string>, buckets: map<string, seq<Update>>, fallback: seq<Update>)
    requires Bucketed(ns, names, buckets, fallback) && u.fieldName != "" && u.fieldName in buckets
    ensures Bucketed(ns + [u], names, buckets[u.fieldName := buckets[u.fieldName] + [u]], fallback)
  {
    EmptyNotFieldName(ns);
    NamedAll(ns, u);
  }

  /** Appending a record without a field name to the fallback list. */
  lemma BucketFallback(ns: seq<Update>, u: Update, names: seq<string>, buckets: map<string, seq<Update>>, fallback: seq<Update>)
    requires Bucketed(ns, names, buckets, fallback) && u.fieldName == ""
    ensures Bucketed(ns + [u], names, buckets, fallback + [u])
  {
    EmptyNotFieldName(ns);
    NamedAll(ns, u);
  }

  /** One iteration of the bucketing loop for a record (python/generate_form.py:524-527). */
  method AddRecord(ghost ns: seq<Update>, u: Update, names: seq<string>, buckets: map<string, seq<Update>>, fallback: seq<Update>)
    returns (names': seq<string>, buckets': map<string, seq<Update>>, fallback': seq<Update>)
    requires Bucketed(ns, names, buckets, fallback)
    ensures Bucketed(ns + [u], names', buckets', fallback')
  {
    names', buckets', fallback' := names, buckets, fallback;
    var fieldName := u.fieldName;
    if fieldName != "" {
      if fieldName !in buckets' {
        names' := names' + [fieldName];
        buckets' := buckets'[fieldName := []];
      }
      buckets' := buckets'[fieldName := buckets'[fieldName] + [u]];
      if fieldName !in buckets {
        BucketNew(ns, u, names, buckets, fallback);
        assert buckets' == buckets[fieldName := [u]];
      } else {
        BucketExisting(ns, u, names, buckets, fallback);
      }
    } else {
      BucketFallback(ns, u, names, buckets, fallback);
      fallback' := fallback' + [u];
    }
  }

  /** The bucketing loop (python/generate_form.py:510-527), before the sorts. */
  method BucketRecords(updates: seq<RawUpdate>) returns (names: seq<string>, buckets: map<string, seq<Update>>, fallback: seq<Update>)
    ensures Bucketed(Normalized(updates), names, buckets, fallback)
  {
    names, buckets, fallback := [], map[], [];
    for index := 0 to |updates|
      invariant Bucketed(Normalized(updates[..index]), names, buckets, fallback)
    {
      ghost var ns := Normalized(updates[..index]);
      NormalizedStep(updates, index);
      if updates[index].Record? {
        var normalized := Normalize(updates[index], index).value;
        names, buckets, fallback := AddRecord(ns, normalized, names, buckets, fallback);
      } else {
        assert ns + [] == ns;
      }
    }
    assert updates[..|updates|] == updates;
  }

  /** `entries.sort(key=order)` for every bucket, in key order (python/generate_form.py:529-530). */
  method SortBuckets(names: seq<string>, buckets: map<string, seq<Update>>) returns (sorted: map<string, seq<Update>>)
    requires forall i, j :: 0 <= i < j < |names| ==> names[i] != names[j]
    requires forall n :: n in buckets <==> n in names
    ensures forall n :: n in sorted <==> n in names
    ensures forall n :: n in sorted ==> sorted[n] == SortBy(buckets[n], OrderKey)
  {
    sorted := buckets;
    for k := 0 to |names|
      invariant forall n :: n in sorted <==> n in names
      invariant forall n :: n in sorted ==> sorted[n] == (if n in names[..k] then SortBy(buckets[n], OrderKey) else buckets[n])
    {
      assert names[k] !in names[..k];
      assert names[..k + 1] == names[..k] + [names[k]];
      sorted := sorted[names[k] := SortBy(sorted[names[k]], OrderKey)];
    }
    assert names[..|names|] == names;
  }

  /** Buckets holding the records of their own names, plus the fallback list, hold every record once. */
  lemma PoolHoldsAll(ns: seq<Update>, p: Pool)
    requires p.names == FieldNames(ns)
    requires forall n :: n in p.names ==> n in p.buckets && multiset(p.buckets[n]) == multiset(Named(ns, n))
    requires multiset(p.fallback) == multiset(Named(ns, ""))
    ensures Contents(p) == multiset(ns)
  {
    FieldNamesDistinct(ns);
    EmptyNotFieldName(ns);
    forall u
      ensures Contents(p)[u] == multiset(ns)[u]
    {
      TotalNamed(p.names, p.buckets, ns, u);
      NamedCount(ns, "", u);
      if u.fieldName != "" && multiset(ns)[u] > 0 {
        FieldNamesCover(ns, u);
      }
    }
  }

  /**
   * `updates_by_field` and `fallback_updates` as the pass leaves them before
   * matching (python/generate_form.py:510-532). Each bucket holds the records
   * of its field name sorted stably by `order`, the fallback list those
   * without a name, and together they hold every record exactly once.
   */
  /** The pool `BucketUpdates` builds, as a value. */
  function PoolOf(updates: seq<RawUpdate>): Pool {
    var ns := Normalized(updates);
    Pool(FieldNames(ns), map n | n in FieldNames(ns) :: SortBy(Named(ns, n), OrderKey), SortBy(Named(ns, ""), OrderKey))
  }

  method BucketUpdates(updates: seq<RawUpdate>) returns (p: Pool)
    ensures ValidPool(p)
    ensures p.names == FieldNames(Normalized(updates))
    ensures forall n :: n in p.buckets ==> p.buckets[n] == SortBy(Named(Normalized(updates), n), OrderKey)
    ensures p.fallback == SortBy(Named(Normalized(updates), ""), OrderKey)
    ensures Contents(p) == multiset(Normalized(updates))
  {
    var names, unsorted, fallback := BucketRecords(updates);
    ghost var ns := Normalized(updates);
    FieldNamesDistinct(ns);
    EmptyNotFieldName(ns);
    var buckets := SortBuckets(names, unsorted);
    p := Pool(names, buckets, SortBy(fallback, OrderKey));
    PoolHoldsAll(ns, p);
  }

  /** A pool with the contents `BucketUpdates` promises is the pool `PoolOf` describes. */
  lemma PoolIsPoolOf(updates: seq<RawUpdate>, p: Pool)
    requires ValidPool(p)
    requires p.names == FieldNames(Normalized(updates))
    requires forall n :: n in p.buckets ==> p.buckets[n] == SortBy(Named(Normalized(updates), n), OrderKey)
    requires p.fallback == SortBy(Named(Normalized(updates), ""), OrderKey)
    ensures p == PoolOf(updates)
  {
    assert p.buckets == PoolOf(updates).buckets;
  }

  lemma PoolOfValid(updates: seq<RawUpdate>)
    ensures ValidPool(PoolOf(updates))
  {
    var ns := Normalized(updates);
    FieldNamesDistinct(ns);
    EmptyNotFieldName(ns);
  }
}
