/**
 * `XMLConfigurationParser`: a SAX handler that turns an XML configuration into properties.  The
 * open elements are kept on a stack; the text inside an element is stored under the names on the
 * stack joined by `.`.  The SAX driver itself (`parse`) is not modelled: the callbacks are called
 * directly here.
 */
module XMLConfigurationParser {
  import opened Wrappers
  import opened JStrings

  const DOT: JChar := '.' as JChar

  /** What `getCurrentXMLPath` returns for a stack, bottom first; an empty stack fails in `deleteCharAt(-1)`. */
  function PathOf(stack: seq<JString>): Result<JString, Exception> {
    if |stack| == 0 then Err(IndexOutOfBoundsException) else Ok(JoinWith(stack, [DOT]))
  }

  /** The text the loop of `getCurrentXMLPath` builds: every name followed by a `.`. */
  function DotTerminated(names: seq<JString>): JString {
    if |names| == 0 then [] else DotTerminated(names[..|names| - 1]) + names[|names| - 1] + [DOT]
  }

  lemma {:induction false} DotTerminatedIsJoin(names: seq<JString>)
    requires |names| > 0
    ensures DotTerminated(names) == JoinWith(names, [DOT]) + [DOT]
  {
    if |names| > 1 {
      DotTerminatedIsJoin(names[..|names| - 1]);
    }
  }

  class Parser {
    var properties: map<JString, JString>
    /** `_stack`, bottom first. */
    var stack: seq<JString>

    constructor ()
      ensures properties == map[] && stack == []
    {
      properties := map[];
      stack := [];
    }

    /** `startElement`: the element's qualified name is pushed. */
    method StartElement(qName: JString)
      modifies this
      ensures stack == old(stack) + [qName] && properties == old(properties)
    {
      stack := stack + [qName];
    }

    /** `endElement`: the top name is popped; `Stack.pop` on an empty stack throws. */
    method EndElement() returns (error: Option<Exception>)
      modifies this
      ensures old(stack) == [] ==> error == Some(EmptyStackException) && stack == old(stack)
      ensures old(stack) != [] ==> error.None? && stack == old(stack)[..|old(stack)| - 1]
      ensures properties == old(properties)
    {
      if |stack| == 0 {
        return Some(EmptyStackException);
      }
      stack := stack[..|stack| - 1];
      error := None;
    }

    /** `getCurrentXMLPath`: each name and a `.` are appended, then the last char is deleted. */
    method CurrentXMLPath() returns (r: Result<JString, Exception>)
      ensures r == PathOf(stack)
    {
      var sb: JString := [];
      var i := 0;
      while i < |stack|
        invariant 0 <= i <= |stack|
        invariant sb == DotTerminated(stack[..i])
      {
        assert stack[..i + 1][..i] == stack[..i];
        sb := sb + (stack[i] + [DOT]);
        i := i + 1;
      }
      if |sb| == 0 {
        return Err(IndexOutOfBoundsException);
      }
      assert stack[..i] == stack;
      DotTerminatedIsJoin(stack);
      r := Ok(sb[..|sb| - 1]);
    }

    /** `characters`: trimmed, non-empty text is stored under the current path, replacing any earlier text. */
    method Characters(text: JString) returns (error: Option<Exception>)
      modifies this
      ensures stack == old(stack)
      ensures Trim(text) == [] ==> properties == old(properties) && error.None?
      ensures Trim(text) != [] && old(stack) == [] ==> properties == old(properties) && error == Some(IndexOutOfBoundsException)
      ensures Trim(text) != [] && old(stack) != [] ==>
        properties == old(properties)[JoinWith(old(stack), [DOT]) := Trim(text)] && error.None?
    {
      var value := Trim(text);
      if |value| != 0 {
        var path := CurrentXMLPath();
        if path.Err? {
          return Some(path.error);
        }
        properties := properties[path.value := value];
      }
      error := None;
    }
  }

  /** Opening a child element extends the path by `.` and the child's name. */
  lemma PathOfChild(stack: seq<JString>, name: JString)
    requires |stack| > 0
    ensures PathOf(stack + [name]) == Ok(PathOf(stack).value + [DOT] + name)
  {
    assert (stack + [name])[..|stack|] == stack;
  }

  /** For element names without `.`, the path names the open elements unambiguously: splitting it at `.` gives the stack back. */
  lemma PathNamesTheStack(stack: seq<JString>)
    requires |stack| > 0
    requires forall i :: 0 <= i < |stack| ==> DOT !in stack[i]
    ensures Fields(PathOf(stack).value, DOT) == stack
  {
    FieldsOfJoin(stack, DOT);
  }

  /** Starting and then ending an element leaves the stack as it was. */
  method StartThenEnd(p: Parser, qName: JString)
    modifies p
    ensures p.stack == old(p.stack) && p.properties == old(p.properties)
  {
    p.StartElement(qName);
    var e := p.EndElement();
  }
}
