/**
 * What `ParamParserService` computes, as functions of its two fields:
 * the parser map after a registration, the parser found for a type, and
 * the value `parse` returns. The class in ParamParserService.dfy is proved
 * against these, and the lemmas here state what they promise.
 */
module Registry {
  import opened Wrappers
  import opened Reflection
  import opened Parsing

  type ParserMap<V> = map<Ty, ParamParser<V>>

  /**
   * The map after `addOrReplace(p)`: every type `p` declares is bound to
   * `p`, overwriting any earlier binding; every other binding is kept.
   * A parser that declares no types leaves the map as it was.
   */
  function Registered<V>(m: ParserMap<V>, p: ParamParser<V>): (r: ParserMap<V>)
    ensures |p.matches| == 0 ==> r == m
    ensures forall t :: t in p.matches ==> t in r && r[t] == p
    ensures forall t :: t !in p.matches ==> (t in r <==> t in m)
    ensures forall t :: t !in p.matches && t in m ==> r[t] == m[t]
  {
    if |p.matches| == 0 then m else m + map t | t in p.matches :: p
  }

  /** The map after registering each parser of `ps` in order, starting from `m`. */
  function RegisterAll<V>(m: ParserMap<V>, ps: seq<ParamParser<V>>): ParserMap<V>
  {
    if ps == [] then m else Registered(RegisterAll(m, ps[..|ps| - 1]), ps[|ps| - 1])
  }

  /** Some parser of `ps` declares `t`. */
  predicate Declared<V>(ps: seq<ParamParser<V>>, t: Ty)
  {
    exists i :: 0 <= i < |ps| && t in ps[i].matches
  }

  /** `ps[i]` declares `t` and no later parser of `ps` does. */
  predicate LastDeclarer<V>(ps: seq<ParamParser<V>>, t: Ty, i: int)
  {
    0 <= i < |ps| && t in ps[i].matches && forall j :: i < j < |ps| ==> t !in ps[j].matches
  }

  /**
   * Last registration wins: after a sequence of registrations, a type is
   * bound exactly when it was bound before or some parser declares it; it is
   * bound to the LAST parser in the sequence that declares it, and a type no
   * parser declares keeps its earlier binding.
   */
  lemma {:induction false} RegisterAllLastWins<V>(m: ParserMap<V>, ps: seq<ParamParser<V>>, t: Ty)
    ensures t in RegisterAll(m, ps) <==> t in m || Declared(ps, t)
    ensures forall i :: LastDeclarer(ps, t, i) ==> t in RegisterAll(m, ps) && RegisterAll(m, ps)[t] == ps[i]
    ensures !Declared(ps, t) && t in m ==> RegisterAll(m, ps)[t] == m[t]
  {
    if ps != [] {
      var n := |ps| - 1;
      var init, last := ps[..n], ps[n];
      var before := RegisterAll(m, init);
      assert RegisterAll(m, ps) == Registered(before, last);
      RegisterAllLastWins(m, init, t);
      if t in last.matches {
        assert Declared(ps, t);
        forall i | LastDeclarer(ps, t, i) ensures i == n { }
      } else {
        assert Declared(ps, t) <==> Declared(init, t) by {
          if Declared(ps, t) {
            var i :| 0 <= i < |ps| && t in ps[i].matches;
            assert i < n && init[i] == ps[i];
          }
          if Declared(init, t) {
            var i :| 0 <= i < |init| && t in init[i].matches;
            assert init[i] == ps[i];
          }
        }
        forall i | LastDeclarer(ps, t, i)
          ensures t in RegisterAll(m, ps) && RegisterAll(m, ps)[t] == ps[i]
        {
          assert i < n && init[i] == ps[i];
          assert LastDeclarer(init, t, i);
        }
      }
    }
  }

  /**
   * `getParser`: the parser bound to `t`, or else to the nearest superclass
   * of `t` that has one; `None` (Java's `null`) if none in the chain does.
   */
  function Lookup<V>(m: ParserMap<V>, t: Ty): Option<ParamParser<V>>
    decreases Depth(t)
  {
    if t in m then Some(m[t])
    else match Super(t)
      case None => None
      case Some(s) => Lookup(m, s)
  }

  /**
   * `Lookup` finds the nearest registered ancestor: when it is `None`, no
   * type in the superclass chain of `t` is bound; otherwise some type in
   * the chain is bound and the result is the binding of the first such type.
   */
  lemma {:induction false} LookupNearest<V>(m: ParserMap<V>, t: Ty)
    ensures Lookup(m, t).None? ==> forall i :: 0 <= i < |Ancestors(t)| ==> Ancestors(t)[i] !in m
    ensures Lookup(m, t).Some? ==>
              exists i :: 0 <= i < |Ancestors(t)| && Ancestors(t)[i] in m
                       && Lookup(m, t).value == m[Ancestors(t)[i]]
                       && forall j :: 0 <= j < i ==> Ancestors(t)[j] !in m
    decreases Depth(t)
  {
    var chain := Ancestors(t);
    assert chain[0] == t;
    if t !in m {
      match Super(t)
      case None =>
        assert chain == [t];
      case Some(s) =>
        LookupNearest(m, s);
        var rest := Ancestors(s);
        assert chain == [t] + rest;
        assert forall i :: 0 < i < |chain| ==> chain[i] == rest[i - 1];
        if Lookup(m, s).Some? {
          var k :| 0 <= k < |rest| && rest[k] in m && Lookup(m, s).value == m[rest[k]]
                   && forall j :: 0 <= j < k ==> rest[j] !in m;
          assert chain[k + 1] == rest[k];
          assert forall j :: 0 <= j < k + 1 ==> chain[j] !in m by {
            forall j | 0 <= j < k + 1 ensures chain[j] !in m {
              if j > 0 { assert chain[j] == rest[j - 1]; }
            }
          }
        } else {
          forall i | 0 <= i < |chain| ensures chain[i] !in m {
            if i > 0 { assert chain[i] == rest[i - 1]; }
          }
        }
    }
  }

  /** Superclass fallback: an unbound type is served by its superclass's parser. */
  lemma LookupFallsBackToSuperclass<V>(m: ParserMap<V>, t: Ty, s: Ty)
    requires t !in m && Super(t) == Some(s)
    ensures Lookup(m, t) == Lookup(m, s)
  {
  }

  /** After registering `p`, every type `p` declares is served by `p`. */
  lemma LookupAfterRegister<V>(m: ParserMap<V>, p: ParamParser<V>, t: Ty)
    requires t in p.matches
    ensures Lookup(Registered(m, p), t) == Some(p)
  {
  }

  /** The parser `parse` tries first: the one `Lookup` finds, applied to the input. */
  function Direct<V>(m: ParserMap<V>, cl: Ty, param: string): Option<Value<V>>
  {
    match Lookup(m, cl)
    case None => None
    case Some(p) => p.parse(param)
  }

  /** Whether at least one array slot holds a value. */
  predicate AnyPresent<V>(slots: seq<Option<Value<V>>>)
  {
    exists i :: 0 <= i < |slots| && slots[i].Some?
  }

  /** The number of slots that hold a value (`count` in `parse`). */
  function CountPresent<V>(slots: seq<Option<Value<V>>>): (n: nat)
    ensures n <= |slots|
    ensures n > 0 <==> AnyPresent(slots)
  {
    if slots == [] then 0
    else
      var init := slots[..|slots| - 1];
      assert forall i :: 0 <= i < |init| ==> init[i] == slots[i];
      CountPresent(init) + if slots[|slots| - 1].Some? then 1 else 0
  }

  /**
   * `parse(cl, param, defaultVal)` given the parser map `m` and the splitter
   * `split`. The parser found for `cl` wins when it yields a value; else an
   * array type with non-empty input is split, each token is parsed as the
   * component type with a `null` default, and the array is the result when
   * at least one slot is filled; in every other case `defaultVal`.
   */
  function Parsed<V>(m: ParserMap<V>, split: Splitter, cl: Ty, param: string,
                     defaultVal: Option<Value<V>>): Option<Value<V>>
    decreases cl
  {
    var direct := Direct(m, cl, param);
    if direct.Some? then direct
    else if cl.Array? && param != "" then
      var slots := ElementSlots(m, split, cl, param);
      if AnyPresent(slots) then Some(ArrayOf(cl.component, slots)) else defaultVal
    else defaultVal
  }

  /** One slot per token of `param`, slot `i` being token `i` parsed as the component type. */
  function ElementSlots<V>(m: ParserMap<V>, split: Splitter, cl: Ty, param: string): (slots: seq<Option<Value<V>>>)
    requires cl.Array?
    decreases cl, 0
  {
    var tokens := split(param);
    seq(|tokens|, i requires 0 <= i < |tokens| => Parsed(m, split, cl.component, tokens[i], None))
  }

  /**
   * A parser that is found for `cl` and yields a value decides the result:
   * `parse` returns exactly that value and never reaches the array branch.
   */
  lemma ParseDirectHit<V>(m: ParserMap<V>, split: Splitter, cl: Ty, param: string,
                          defaultVal: Option<Value<V>>, p: ParamParser<V>, v: Value<V>)
    requires Lookup(m, cl) == Some(p) && p.parse(param) == Some(v)
    ensures Parsed(m, split, cl, param, defaultVal) == Some(v)
  {
  }

  /**
   * The array branch: when no parser yields a value for an array type and
   * the input is non-empty, the result is an array with one slot per token,
   * slot `i` holding token `i` parsed as the component type with a `null`
   * default, provided at least one slot is filled; otherwise `defaultVal`.
   */
  lemma ParseArray<V>(m: ParserMap<V>, split: Splitter, cl: Ty, param: string, defaultVal: Option<Value<V>>)
    requires Direct(m, cl, param).None? && cl.Array? && param != ""
    ensures var tokens := split(param);
            var r := Parsed(m, split, cl, param, defaultVal);
            if exists i :: 0 <= i < |tokens| && Parsed(m, split, cl.component, tokens[i], None).Some? then
              r.Some? && r.value.ArrayOf? && r.value.component == cl.component && |r.value.slots| == |tokens|
              && forall i :: 0 <= i < |tokens| ==> r.value.slots[i] == Parsed(m, split, cl.component, tokens[i], None)
            else
              r == defaultVal
  {
    var tokens := split(param);
    var slots := ElementSlots(m, split, cl, param);
    assert |slots| == |tokens|;
    assert forall i :: 0 <= i < |tokens| ==> slots[i] == Parsed(m, split, cl.component, tokens[i], None);
  }

  /**
   * Outside the array branch (a type that is not an array, or empty input),
   * a failed or missing parser means `defaultVal`.
   */
  lemma ParseFallsBackToDefault<V>(m: ParserMap<V>, split: Splitter, cl: Ty, param: string,
                                   defaultVal: Option<Value<V>>)
    requires Direct(m, cl, param).None? && (!cl.Array? || param == "")
    ensures Parsed(m, split, cl, param, defaultVal) == defaultVal
  {
  }

  /**
   * `defaultVal` is used only on failure: the result with a default is the
   * result with a `null` default, with `null` replaced by the default.
   */
  lemma ParseDefaultOnlyOnFailure<V>(m: ParserMap<V>, split: Splitter, cl: Ty, param: string,
                                     defaultVal: Option<Value<V>>)
    ensures Parsed(m, split, cl, param, defaultVal) ==
            if Parsed(m, split, cl, param, None).Some? then Parsed(m, split, cl, param, None) else defaultVal
  {
  }

  /** The splitter plays no part in parsing a type that is not an array type. */
  lemma ParseScalarIgnoresSplitter<V>(m: ParserMap<V>, split1: Splitter, split2: Splitter, cl: Ty, param: string,
                                      defaultVal: Option<Value<V>>)
    requires !cl.Array?
    ensures Parsed(m, split1, cl, param, defaultVal) == Parsed(m, split2, cl, param, defaultVal)
  {
  }

  /**
   * Override: after `q` is registered for `cl`, parsing `cl` uses `q`, so a
   * value `q` yields is the result, whatever was registered before.
   */
  lemma ParseAfterOverride<V>(m: ParserMap<V>, q: ParamParser<V>, split: Splitter, cl: Ty, param: string,
                              defaultVal: Option<Value<V>>, v: Value<V>)
    requires cl in q.matches && q.parse(param) == Some(v)
    ensures Parsed(Registered(m, q), split, cl, param, defaultVal) == Some(v)
  {
    LookupAfterRegister(m, q, cl);
  }
}
