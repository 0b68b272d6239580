/**
 * The part of Java's `Class` objects that the parser service relies on:
 * whether a class is an array class, its component type, and its
 * superclass (`Class.getSuperclass`).
 */
module Reflection {
  import opened Wrappers

  /**
   * A runtime type descriptor. A class other than `Object` carries its
   * direct superclass, so the superclass chain is part of the value.
   * Primitive types (`int`, `boolean`, ...) and interfaces have no
   * superclass; an array class has `Object` as its superclass.
   * Java only ever gives a class another class (`Object` or a `ClassType`)
   * as superclass. The type does not enforce this, and nothing here needs it.
   */
  datatype Ty =
    | Object
    | ClassType(name: string, superclass: Ty)
    | Primitive(name: string)
    | Interface(name: string)
    | Array(component: Ty)

  /** Length of the superclass chain above `t`; the termination measure for walking it. */
  function Depth(t: Ty): nat
  {
    match t
    case ClassType(_, s) => Depth(s) + 1
    case Array(_) => 1
    case _ => 0
  }

  /** `Class.getSuperclass`: `None` where Java returns `null`. */
  function Super(t: Ty): (r: Option<Ty>)
    ensures r.Some? ==> Depth(r.value) < Depth(t)
    ensures r.None? <==> (t.Object? || t.Primitive? || t.Interface?)
  {
    match t
    case ClassType(_, s) => Some(s)
    case Array(_) => Some(Object)
    case _ => None
  }

  /** `t` followed by every superclass of `t`, nearest first. */
  function Ancestors(t: Ty): (chain: seq<Ty>)
    decreases Depth(t)
  {
    match Super(t)
    case None => [t]
    case Some(s) => [t] + Ancestors(s)
  }

  /**
   * `Ancestors` is exactly the chain that repeated `getSuperclass` calls
   * visit: it starts at `t`, each entry's superclass is the next entry,
   * and the last entry has no superclass.
   */
  lemma {:induction false} AncestorsIsSuperclassChain(t: Ty)
    ensures |Ancestors(t)| >= 1 && Ancestors(t)[0] == t
    ensures forall i :: 0 <= i < |Ancestors(t)| - 1 ==> Super(Ancestors(t)[i]) == Some(Ancestors(t)[i + 1])
    ensures Super(Ancestors(t)[|Ancestors(t)| - 1]).None?
    decreases Depth(t)
  {
    match Super(t)
    case None =>
    case Some(s) =>
      AncestorsIsSuperclassChain(s);
      var rest := Ancestors(s);
      assert Ancestors(t) == [t] + rest;
      forall i | 0 <= i < |Ancestors(t)| - 1
        ensures Super(Ancestors(t)[i]) == Some(Ancestors(t)[i + 1])
      {
        if i > 0 {
          assert Ancestors(t)[i] == rest[i - 1];
        }
      }
  }
}
