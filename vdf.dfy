/**
 * The parsed form of a Valve data file (`libraryfolders.vdf`, `*.acf`) as the
 * Gameloop.Vdf library hands it over: a property is a key and a token, a token
 * is a scalar value or an ordered object of child properties. Parsing itself
 * belongs to that library and is not modelled; only the lookups the scan makes.
 */
module Vdf {
  import opened Wrappers

  datatype Token = Value(text: string) | Object(children: seq<Property>)

  datatype Property = Property(key: string, value: Token)

  /** The children a `foreach` over a token visits (none for a scalar). */
  function Children(t: Token): seq<Property> {
    if t.Object? then t.children else []
  }

  /** The position of the first property named `key`. */
  function Find(ps: seq<Property>, key: string): (r: Option<nat>)
    ensures r.Some? ==> r.value < |ps| && ps[r.value].key == key
    ensures r.Some? ==> forall j | 0 <= j < r.value :: ps[j].key != key
    ensures r.None? ==> forall j | 0 <= j < |ps| :: ps[j].key != key
  {
    if ps == [] then None
    else if ps[0].key == key then Some(0)
    else match Find(ps[1..], key)
      case None => None
      case Some(i) => Some(i + 1)
  }

  /** Dynamic member access `t?.key`: the value of the first child named `key`;
      absent when `t` is absent, is a scalar, or has no such child. */
  function Member(t: Option<Token>, key: string): (r: Option<Token>)
    ensures r.Some? <==> t.Some? && exists j | 0 <= j < |Children(t.value)| :: Children(t.value)[j].key == key
  {
    if t.None? then None
    else match Find(Children(t.value), key)
      case None => None
      case Some(i) => Some(Children(t.value)[i].value)
  }

  /** Looking up a key in an object yields the value of its first property of that name. */
  lemma MemberAt(ps: seq<Property>, key: string, i: nat)
    requires i < |ps| && ps[i].key == key
    requires forall j | 0 <= j < i :: ps[j].key != key
    ensures Member(Some(Object(ps)), key) == Some(ps[i].value)
  {
    assert Find(ps, key) == Some(i);
  }

  /** `?.ToString()` of a scalar value. */
  function AsText(t: Option<Token>): Option<string> {
    if t.Some? && t.value.Value? then Some(t.value.text) else None
  }
}
