/**
 * The parser service itself: a mutable map from target type to parser and
 * a replaceable array splitter, with registration, superclass-aware
 * lookup, and recursive parsing that expands array types element by element.
 */
module ParserService {
  import opened Wrappers
  import opened Reflection
  import opened Parsing
  import opened Registry

  class ParamParserService<V> {
    var parserMap: ParserMap<V>
    var arraySplitter: Splitter

    /**
     * Starts from an empty map and the given splitter (the whitespace
     * splitter in the original), then registers each default parser in order.
     */
    constructor (defaults: seq<ParamParser<V>>, spaceSplitter: Splitter)
      ensures parserMap == RegisterAll(map[], defaults)
      ensures arraySplitter == spaceSplitter
    {
      parserMap := map[];
      arraySplitter := spaceSplitter;
      new;
      for i := 0 to |defaults|
        invariant parserMap == RegisterAll(map[], defaults[..i])
        invariant arraySplitter == spaceSplitter
      {
        var added := AddOrReplace(defaults[i]);
        assert defaults[..i + 1][..i] == defaults[..i];
      }
      assert defaults[..|defaults|] == defaults;
    }

    method GetArraySplitter() returns (s: Splitter)
      ensures s == arraySplitter
    {
      s := arraySplitter;
    }

    method SetArraySplitter(s: Splitter)
      modifies this`arraySplitter
      ensures arraySplitter == s
      ensures parserMap == old(parserMap)
    {
      arraySplitter := s;
    }

    /**
     * Registers `parser` under every type it declares, replacing earlier
     * bindings of those types. Rejects a parser that declares no types.
     */
    method AddOrReplace(parser: ParamParser<V>) returns (added: bool)
      modifies this`parserMap
      ensures added <==> |parser.matches| > 0
      ensures !added ==> parserMap == old(parserMap)
      ensures forall t :: t in parser.matches ==> t in parserMap && parserMap[t] == parser
      ensures forall t :: t !in parser.matches ==> (t in parserMap <==> t in old(parserMap))
      ensures forall t :: t !in parser.matches && t in old(parserMap) ==> parserMap[t] == old(parserMap)[t]
      ensures parserMap == Registered(old(parserMap), parser)
    {
      var cls := parser.matches;
      if |cls| == 0 {
        return false;
      }
      for i := 0 to |cls|
        invariant forall t :: t in cls[..i] ==> t in parserMap && parserMap[t] == parser
        invariant forall t :: t !in cls[..i] ==> (t in parserMap <==> t in old(parserMap))
        invariant forall t :: t !in cls[..i] && t in old(parserMap) ==> parserMap[t] == old(parserMap)[t]
      {
        parserMap := parserMap[cls[i] := parser];
        assert cls[..i + 1] == cls[..i] + [cls[i]];
      }
      assert cls[..|cls|] == cls;
      return true;
    }

    /**
     * The parser for `cl`, or else for its nearest superclass that has
     * one; `None` when no type in the superclass chain is registered.
     */
    method GetParser(cl: Ty) returns (pp: Option<ParamParser<V>>)
      ensures pp == Lookup(parserMap, cl)
      ensures cl in parserMap ==> pp == Some(parserMap[cl])
      ensures pp.None? ==> forall i :: 0 <= i < |Ancestors(cl)| ==> Ancestors(cl)[i] !in parserMap
      ensures pp.Some? ==>
                exists i :: 0 <= i < |Ancestors(cl)| && Ancestors(cl)[i] in parserMap
                         && pp.value == parserMap[Ancestors(cl)[i]]
                         && forall j :: 0 <= j < i ==> Ancestors(cl)[j] !in parserMap
    {
      LookupNearest(parserMap, cl);
      var c := Some(cl);
      pp := None;
      while c.Some?
        invariant c.Some? ==> Lookup(parserMap, c.value) == Lookup(parserMap, cl)
        invariant c.None? ==> pp.None? && Lookup(parserMap, cl).None?
        decreases if c.Some? then Depth(c.value) + 1 else 0
      {
        pp := if c.value in parserMap then Some(parserMap[c.value]) else None;
        if pp.Some? {
          break;
        }
        c := Super(c.value);
      }
    }

    /** `parse(cl, param)`: parsing with a `null` default. */
    method Parse(cl: Ty, param: string) returns (r: Option<Value<V>>)
      ensures r == Parsed(parserMap, arraySplitter, cl, param, None)
      decreases cl, 1
    {
      r := ParseWithDefault(cl, param, None);
    }

    /**
     * `parse(cl, param, defaultVal)`: the value of the parser found for
     * `cl` if it yields one; else, for an array type and non-empty input,
     * an array with each token parsed as the component type, if at least
     * one of them parsed; else `defaultVal`. Changes nothing in the service.
     */
    method ParseWithDefault(cl: Ty, param: string, defaultVal: Option<Value<V>>) returns (r: Option<Value<V>>)
      ensures r == Parsed(parserMap, arraySplitter, cl, param, defaultVal)
      decreases cl, 0
    {
      var parser := GetParser(cl);
      if parser.Some? {
        var t := parser.value.parse(param);
        if t.Some? {
          return t;
        }
      }
      if cl.Array? && param != "" {
        var split := arraySplitter(param);
        var componentType := cl.component;
        var arr := new Option<Value<V>>[|split|](_ => None);
        var count := 0;
        for i := 0 to |split|
          invariant forall k :: 0 <= k < i ==> arr[k] == Parsed(parserMap, arraySplitter, componentType, split[k], None)
          invariant count == CountPresent(arr[..i])
        {
          ghost var done := arr[..i];
          var parsed := Parse(componentType, split[i]);
          if parsed.Some? {
            count := count + 1;
          }
          arr[i] := parsed;
          assert arr[..i + 1] == done + [parsed];
        }
        assert arr[..] == ElementSlots(parserMap, arraySplitter, cl, param);
        if count > 0 {
          assert arr[..|split|] == arr[..];
          return Some(ArrayOf(componentType, arr[..]));
        }
        assert arr[..|split|] == arr[..];
      }
      return defaultVal;
    }
  }
}
