/**
 * The part of a pymupdf `Document` the pass touches: a table of indirect
 * objects (xref to dictionary), a counter for fresh object numbers, and the
 * key-level reads and writes `xref_get_key` / `xref_set_key`. Converting a
 * whole object to and from PDF source text belongs to the library and is
 * given as two functions, `parse` and `source`.
 */
module PdfDoc {
  /** The type `xref_get_key` reports for a value. */
  datatype Kind = Null | Bool | Int | Real | Name | String | Array | Dict | Xref

  /** `xref_get_key`'s answer: the type and the text of the value. */
  datatype Value = Value(kind: Kind, raw: string)

  type Dictionary = map<string, Value>

  /** What `xref_get_key` answers for a key that is not there. */
  const NullValue := Value(Null, "null")

  /** The object table: object number to dictionary. */
  type Objects = map<nat, Dictionary>

  /** The dictionary of object `x`; a number with no object reads as an empty dictionary. */
  function ObjectOf(objs: Objects, x: nat): Dictionary {
    if x in objs then objs[x] else map[]
  }

  /** `xref_get_key(x, key)`: a missing key reads as `('null', 'null')`. */
  function KeyOf(objs: Objects, x: nat, key: string): Value {
    if key in ObjectOf(objs, x) then ObjectOf(objs, x)[key] else NullValue
  }

  /** A dictionary with `key` set to `v`; setting `null` removes the key. */
  function SetEntry(d: Dictionary, key: string, v: Value): Dictionary {
    if v.kind == Null then d - {key} else d[key := v]
  }

  /** `xref_set_key(x, key, value)` */
  function WithKey(objs: Objects, x: nat, key: string, v: Value): (r: Objects)
    requires x in objs
    ensures r.Keys == objs.Keys
    ensures KeyOf(r, x, key) == (if v.kind == Null then NullValue else v)
    ensures forall k :: k != key ==> KeyOf(r, x, k) == KeyOf(objs, x, k)
    ensures forall y :: y in objs && y != x ==> r[y] == objs[y]
  {
    objs[x := SetEntry(objs[x], key, v)]
  }

  /** The document's object table and fresh-number counter, as a value. */
  datatype DocState = DocState(objects: Objects, nextXref: nat)

  class Document {
    var objects: map<nat, Dictionary>
    var nextXref: nat
    /** `pdf_catalog()` */
    const catalog: nat
    /** `update_object(xref, text)` stores the dictionary `parse(text)`. */
    const parse: string -> Dictionary
    /** `xref_object(xref)` is `source` of the stored dictionary. */
    const source: Dictionary -> string

    constructor (objects: map<nat, Dictionary>, nextXref: nat, catalog: nat, parse: string -> Dictionary, source: Dictionary -> string)
      ensures this.objects == objects && this.nextXref == nextXref && this.catalog == catalog
      ensures this.parse == parse && this.source == source
    {
      this.objects := objects;
      this.nextXref := nextXref;
      this.catalog := catalog;
      this.parse := parse;
      this.source := source;
    }

    /** The catalog exists and every object number is below the fresh-number counter. */
    ghost predicate Valid()
      reads this
    {
      catalog in objects && forall x :: x in objects ==> x < nextXref
    }

    /** `xref_get_key(x, key)` */
    function GetKey(x: nat, key: string): Value
      reads this
    {
      KeyOf(objects, x, key)
    }

    /** `xref_object(x)` */
    function XrefObject(x: nat): string
      reads this
    {
      source(ObjectOf(objects, x))
    }

    /** `xref_set_key(x, key, value)` */
    method SetKey(x: nat, key: string, v: Value)
      requires x in objects
      modifies this
      ensures objects == old(objects)[x := SetEntry(old(objects)[x], key, v)] && nextXref == old(nextXref)
    {
      objects := objects[x := SetEntry(objects[x], key, v)];
    }

    /** `get_new_xref()`: a number no object has, which now names an empty object. */
    method NewXref() returns (x: nat)
      requires Valid()
      modifies this
      ensures Valid()
      ensures x == old(nextXref) && x !in old(objects)
      ensures objects == old(objects)[x := map[]] && nextXref == x + 1
    {
      x := nextXref;
      objects := objects[x := map[]];
      nextXref := nextXref + 1;
    }

    /**
     * `update_object(x, text)` where the program composed `text` itself from
     * the entries of `d`: the object becomes the dictionary that text denotes.
     */
    method WriteDictionary(x: nat, d: Dictionary)
      requires x in objects
      modifies this
      ensures objects == old(objects)[x := d] && nextXref == old(nextXref)
    {
      objects := objects[x := d];
    }

    /** `update_object(x, text)` */
    method UpdateObject(x: nat, text: string)
      requires x in objects
      modifies this
      ensures objects == old(objects)[x := parse(text)] && nextXref == old(nextXref)
    {
      objects := objects[x := parse(text)];
    }
  }

  /** The type names pymupdf uses in `xref_get_key`'s answer. */
  function KindName(k: Kind): string {
    match k
    case Null => "null"
    case Bool => "bool"
    case Int => "int"
    case Real => "float"
    case Name => "name"
    case String => "string"
    case Array => "array"
    case Dict => "dict"
    case Xref => "xref"
  }
}
