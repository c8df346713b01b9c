/** evalTempData: the cache of property values both nodes keep between messages, and the
    once-per-message warning for a property that cannot be read. */
module TempCache {
  import opened Values

  /** The key of a property: `${type}.${value}`. */
  function Key(typ: string, value: string): string
  {
    typ + "." + value
  }

  /** A value that is neither null nor undefined. */
  predicate Present(v: Value)
  {
    !v.Undefined? && !v.Null?
  }

  predicate NoDuplicates(s: seq<string>)
  {
    forall i, j :: 0 <= i < j < |s| ==> s[i] != s[j]
  }

  class Cache {
    /** tempData: the last good value of every property read. */
    var data: map<string, Value>
    /** node.nowarn: the properties already warned about during this message. */
    var nowarn: set<string>
    /** The warnings issued during this message, in order. */
    var warnings: seq<string>

    /** Only present values are cached; each property is warned about at most once per
        message, and exactly the properties in `nowarn` have been. */
    predicate Valid()
      reads this
    {
      (forall k :: k in data ==> Present(data[k]))
      && NoDuplicates(warnings)
      && (forall k :: k in nowarn ==> k in warnings)
      && (forall i :: 0 <= i < |warnings| ==> warnings[i] in nowarn)
    }

    constructor()
      ensures Valid() && data == map[] && nowarn == {} && warnings == []
    {
      data, nowarn, warnings := map[], {}, [];
    }

    /** The start of a message: `node.nowarn = {}`; the cache itself is kept. */
    method StartMessage()
      modifies this
      requires Valid()
      ensures Valid() && data == old(data) && nowarn == {} && warnings == []
    {
      nowarn, warnings := {}, [];
    }

    /** evalTempData: a present value is cached and returned; a missing one is replaced by
        the cached value, if any, and otherwise gives undefined with one warning per
        property and message. */
    method Eval(typ: string, value: string, result: Value) returns (r: Value)
      modifies this
      requires Valid()
      ensures Valid()
      ensures var name := Key(typ, value);
              if Present(result) then
                r == result && data == old(data)[name := result] && nowarn == old(nowarn) && warnings == old(warnings)
              else
                data == old(data)
                && (name in old(data) ==> r == old(data)[name] && nowarn == old(nowarn) && warnings == old(warnings))
                && (name !in old(data) ==>
                      (r == Undefined
                       && nowarn == old(nowarn) + {name}
                       && warnings == old(warnings) + (if name in old(nowarn) then [] else [name])))
      ensures Present(r) || r == Undefined
    {
      var name := Key(typ, value);
      if !Present(result) {
        if name in data {
          return data[name];
        }
        if name in nowarn {
          return Undefined;
        }
        warnings := warnings + [name];
        nowarn := nowarn + {name};
        return Undefined;
      }
      data := data[name := result];
      return result;
    }
  }

  /** Two reads of the same missing property in one message warn once. */
  method WarnOnce(cache: Cache, typ: string, value: string)
    modifies cache
    requires cache.Valid() && Key(typ, value) !in cache.data && Key(typ, value) !in cache.nowarn
    ensures cache.Valid() && cache.warnings == old(cache.warnings) + [Key(typ, value)]
  {
    var a := cache.Eval(typ, value, Undefined);
    var b := cache.Eval(typ, value, Null);
  }
}
