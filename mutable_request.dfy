/**
 * `MutableRequestWrapper`: a servlet request wrapper whose parameters (a map from names to arrays of
 * values) and whose path info and servlet path can be changed.  The wrapped request is reduced to
 * the values it reports for the path info and the servlet path and to its initial parameter map.
 */
module MutableRequest {
  import opened Wrappers
  import opened JStrings

  /** A parameter value: a possibly null string. */
  type Value = Option<JString>

  /**
   * The array the varargs `setParameter` would build for existing values `items` if its first
   * `arraycopy` took `items.length` elements.
   */
  function AppendedValues(items: seq<Value>, values: seq<Value>): (r: seq<Value>)
    ensures |r| == |items| + |values|
    ensures r[..|items|] == items && r[|items|..] == values
  {
    items + values
  }

  /**
   * The first `arraycopy` of the varargs `setParameter` as written: it copies `newItems.length`
   * elements out of `items`, so it fails whenever that exceeds `items.length`.
   */
  function VarargsFirstCopy(items: seq<Value>, values: seq<Value>): (r: Result<seq<Value>, Exception>)
    ensures r.Ok? <==> |values| == 0
    ensures r.Ok? ==> r.value == items
  {
    var newLength := |items| + |values|;
    if newLength > |items| then Err(IndexOutOfBoundsException) else Ok(items[..newLength])
  }

  /** Adding any value to a parameter that already has one makes the varargs call throw. */
  lemma VarargsOverrun(items: seq<Value>, values: seq<Value>)
    requires |items| > 0 && |values| > 0
    ensures VarargsFirstCopy(items, values) == Err(IndexOutOfBoundsException)
    ensures AppendedValues(items, values) != items
  {
  }

  class Request {
    var params: map<JString, array<Value>>
    var pathInfo: Option<JString>
    var servletPath: Option<JString>
    /** What the wrapped request reports. */
    const wrappedPathInfo: Option<JString>
    const wrappedServletPath: Option<JString>

    /** The constructor copies the wrapped request's parameter map (the arrays themselves are shared). */
    constructor (parameterMap: map<JString, array<Value>>, wrappedPathInfo: Option<JString>, wrappedServletPath: Option<JString>)
      ensures params == parameterMap && pathInfo.None? && servletPath.None?
      ensures this.wrappedPathInfo == wrappedPathInfo && this.wrappedServletPath == wrappedServletPath
    {
      params := parameterMap;
      pathInfo := None;
      servletPath := None;
      this.wrappedPathInfo := wrappedPathInfo;
      this.wrappedServletPath := wrappedServletPath;
    }

    /** The values of parameter `name`, or `None` when it has no entry. */
    function Values(name: JString): Option<seq<Value>>
      reads this, params.Values
    {
      if name in params then Some(params[name][..]) else None
    }

    /** `getPathInfo`: the override when one is set, else the wrapped request's value. */
    function GetPathInfo(): (r: Option<JString>)
      reads this
      ensures pathInfo.Some? ==> r == pathInfo
      ensures pathInfo.None? ==> r == wrappedPathInfo
    {
      if pathInfo.Some? then pathInfo else wrappedPathInfo
    }

    /** `getServletPath`: the override when one is set, else the wrapped request's value. */
    function GetServletPath(): (r: Option<JString>)
      reads this
      ensures servletPath.Some? ==> r == servletPath
      ensures servletPath.None? ==> r == wrappedServletPath
    {
      if servletPath.Some? then servletPath else wrappedServletPath
    }

    method SetPathInfo(path: Option<JString>)
      modifies this
      ensures pathInfo == path && servletPath == old(servletPath) && params == old(params)
    {
      pathInfo := path;
    }

    method SetServletPath(path: Option<JString>)
      modifies this
      ensures servletPath == path && pathInfo == old(pathInfo) && params == old(params)
    {
      servletPath := path;
    }

    /** `getParameter(name)`: the first value, or null for an absent name or an empty array. */
    function GetParameter(name: JString): (r: Value)
      reads this, params.Values
      ensures Values(name).Some? && |Values(name).value| > 0 ==> r == Values(name).value[0]
      ensures Values(name).None? || |Values(name).value| == 0 ==> r.None?
    {
      if name in params && params[name].Length > 0 then params[name][0] else None
    }

    /** `getParameterValues(name)`: the array itself, not a copy. */
    function GetParameterValues(name: JString): (r: Option<array<Value>>)
      reads this
      ensures r.Some? <==> name in params
      ensures r.Some? ==> r.value == params[name]
    {
      if name in params then Some(params[name]) else None
    }

    /** `removeParameter(name)`: the entry goes only when it holds at least one value. */
    method RemoveParameter(name: JString)
      modifies this
      ensures name in old(params) && old(params[name].Length) > 0 ==> params == old(params) - {name}
      ensures !(name in old(params) && old(params[name].Length) > 0) ==> params == old(params)
      ensures pathInfo == old(pathInfo) && servletPath == old(servletPath)
    {
      if name in params && params[name].Length > 0 {
        params := params - {name};
      }
    }

    /** `setParameter(name, value)`: a fresh array holding the existing values and then `value`. */
    method SetParameter(name: JString, value: Value)
      modifies this
      ensures Values(name) == Some((if old(Values(name)).Some? then old(Values(name)).value else []) + [value])
      ensures fresh(params[name])
      ensures forall k :: k != name ==> (k in params <==> k in old(params)) && (k in params ==> params[k] == old(params[k]))
      ensures pathInfo == old(pathInfo) && servletPath == old(servletPath)
    {
      var items: array<Value>;
      if name in params && params[name].Length > 0 {
        var old_items := params[name];
        items := new Value[old_items.Length + 1](i => None);
        var i := 0;
        while i < old_items.Length
          invariant 0 <= i <= old_items.Length
          invariant items[..i] == old_items[..i]
          modifies items
        {
          items[i] := old_items[i];
          i := i + 1;
        }
        assert items[..old_items.Length] == old_items[..];
      } else {
        items := new Value[1](i => None);
      }
      items[items.Length - 1] := value;
      params := params[name := items];
      assert items[..] == items[..items.Length - 1] + [value];
    }

    /**
     * The varargs `setParameter(name, values)` as written: an absent or empty entry is replaced by
     * the caller's array itself; for an entry with values, the first `arraycopy` overruns as soon as
     * `values` is non-empty, and nothing changes.
     */
    method SetParameterValues(name: JString, values: array<Value>) returns (error: Option<Exception>)
      modifies this
      ensures !(name in old(params) && old(params[name].Length) > 0) ==> params == old(params)[name := values] && error.None?
      ensures name in old(params) && old(params[name].Length) > 0 && values.Length > 0 ==>
        params == old(params) && error == Some(IndexOutOfBoundsException)
      ensures name in old(params) && old(params[name].Length) > 0 && values.Length == 0 ==>
        Values(name) == old(Values(name)) && fresh(params[name]) && error.None?
      ensures forall k :: k != name ==> (k in params <==> k in old(params)) && (k in params ==> params[k] == old(params[k]))
      ensures pathInfo == old(pathInfo) && servletPath == old(servletPath)
    {
      if name in params && params[name].Length > 0 {
        var items := params[name];
        var copied := VarargsFirstCopy(items[..], values[..]);
        if copied.Err? {
          return Some(copied.error);
        }
        var newItems := new Value[items.Length](i requires 0 <= i < items.Length reads items => items[i]);
        assert newItems[..] == items[..];
        params := params[name := newItems];
      } else {
        params := params[name := values];
      }
      error := None;
    }

    /** The varargs `setParameter` with the evident intent: the new values follow the existing ones. */
    method AppendParameterValues(name: JString, values: array<Value>)
      modifies this
      ensures Values(name) == Some(AppendedValues(if old(Values(name)).Some? then old(Values(name)).value else [], old(values[..])))
      ensures forall k :: k != name ==> (k in params <==> k in old(params)) && (k in params ==> params[k] == old(params[k]))
      ensures pathInfo == old(pathInfo) && servletPath == old(servletPath)
    {
      var existing: seq<Value> := if name in params then params[name][..] else [];
      var all := AppendedValues(existing, values[..]);
      var newItems := new Value[|all|](i requires 0 <= i < |all| => all[i]);
      assert newItems[..] == all;
      params := params[name := newItems];
    }
  }
}
