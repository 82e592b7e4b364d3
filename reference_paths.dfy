/**
 * A reference path as a list of steps, with a meaning of its own: apply
 * the steps to the object one after the other, stopping at the first
 * failure. Writing the steps out in the reference syntax and handing the
 * text to the string evaluator gives the same outcome, for relative
 * (`:./`, `:../`) and absolute (`:/`) references alike.
 */
module ReferencePaths {
  import opened Text
  import opened ObjectGraph
  import opened StringReference

  /** One segment of a path: `../`, an attribute name, or a `[key]` subscript. */
  datatype Step = Up | Attr(name: string) | Index(key: Key)

  function ApplyStep(g: Graph, v: Value, step: Step): Result<Value> {
    match step
    case Up => GetAttr(g, v, ParentAttr)
    case Attr(name) => GetAttr(g, v, name)
    case Index(key) => GetItem(v, key)
  }

  /** The meaning of a path, independent of its text. */
  function EvalSteps(g: Graph, v: Value, steps: seq<Step>): Result<Value>
    decreases |steps|
  {
    if steps == [] then Ok(v)
    else
      match ApplyStep(g, v, steps[0])
      case Err(e) => Err(e)
      case Ok(w) => EvalSteps(g, w, steps[1..])
  }

  /** A key that can be written inside `[...]`: a natural index, or a text with no `]` and no quote at either end. */
  predicate IsWritableKey(key: Key) {
    match key
    case IntKey(i) => i >= 0
    case StrKey(text) => ']' !in text && (text == [] || (text[0] !in Quotes && text[|text| - 1] !in Quotes))
  }

  predicate IsWritable(step: Step) {
    match step
    case Up => true
    case Attr(name) => IsAttributeName(name)
    case Index(key) => IsWritableKey(key)
  }

  predicate AllWritable(steps: seq<Step>)
    decreases |steps|
  {
    steps == [] || (IsWritable(steps[0]) && AllWritable(steps[1..]))
  }

  /** The text inside the brackets: decimal digits for an index, a quoted text for a key. */
  function KeyText(key: Key): (text: string)
    requires IsWritableKey(key)
    ensures ']' !in text
    ensures ParseKey(text) == key
  {
    match key
    case IntKey(i) =>
      ParseDecimalKey(i);
      Decimal(i)
    case StrKey(t) =>
      ParseQuotedKey(t, '\'');
      "'" + t + "'"
  }

  /**
   * The path written out: `../` for Up, `[k]` for Index, and the name for
   * Attr, preceded by `.` when it follows an attribute or an index.
   */
  function Render(steps: seq<Step>, afterSegment: bool): (text: string)
    requires AllWritable(steps)
    ensures text == [] || text[0] !in Markers
    ensures afterSegment ==> text == [] || text[0] in Splitters
    ensures text == [] <==> steps == []
    decreases |steps|
  {
    if steps == [] then ""
    else
      var rest := Render(steps[1..], !steps[0].Up?);
      match steps[0]
      case Up => "../" + rest
      case Attr(name) => (if afterSegment then "." + name else name) + rest
      case Index(key) => "[" + KeyText(key) + "]" + rest
  }

  /** Evaluating a rendered path performs its first step, then evaluates the rendering of the others. */
  lemma RenderedStep(g: Graph, v: Value, steps: seq<Step>, afterSegment: bool)
    requires AllWritable(steps) && steps != []
    ensures ApplyStep(g, v, steps[0]).Err? ==>
      GetRelativeReferenceValue(g, v, Render(steps, afterSegment)) == Err(ApplyStep(g, v, steps[0]).error)
    ensures ApplyStep(g, v, steps[0]).Ok? ==>
      GetRelativeReferenceValue(g, v, Render(steps, afterSegment)) ==
      GetRelativeReferenceValue(g, ApplyStep(g, v, steps[0]).value, Render(steps[1..], !steps[0].Up?))
  {
    var rest := Render(steps[1..], !steps[0].Up?);
    var text := Render(steps, afterSegment);
    match steps[0] {
      case Up =>
        assert text == "../" + rest;
        ParentStep(g, v, rest);
      case Attr(name) =>
        if afterSegment {
          assert text == "." + name + rest;
          DottedAttributeStep(g, v, name, rest);
        } else {
          assert text == name + rest;
          AttributeStep(g, v, name, rest);
        }
      case Index(key) =>
        assert text == "[" + KeyText(key) + "]" + rest;
        IndexStep(g, v, KeyText(key), rest);
    }
  }

  /** The string evaluator computes the meaning of every rendered path. */
  lemma {:induction false} RenderedPathResolves(g: Graph, v: Value, steps: seq<Step>, afterSegment: bool)
    requires AllWritable(steps)
    ensures GetRelativeReferenceValue(g, v, Render(steps, afterSegment)) == EvalSteps(g, v, steps)
    decreases |steps|
  {
    if steps != [] {
      RenderedStep(g, v, steps, afterSegment);
      var r := ApplyStep(g, v, steps[0]);
      if r.Ok? {
        RenderedPathResolves(g, r.value, steps[1..], !steps[0].Up?);
      }
    }
  }

  /** `:./` followed by a path resolves it from the object holding the reference. */
  lemma RelativeReferenceResolves(g: Graph, obj: Value, steps: seq<Step>, root: Value)
    requires AllWritable(steps)
    ensures IsReference(Str(":./" + Render(steps, false)))
    ensures !IsAbsoluteReference(Str(":./" + Render(steps, false)))
    ensures var s := ":./" + Render(steps, false);
      GetReferencedValue(g, obj, s, root) == WrapLookupError(s, EvalSteps(g, obj, steps))
  {
    var p := Render(steps, false);
    ReferenceMarkers(p);
    ResolvesCurrentPath(g, obj, p, root);
    RenderedPathResolves(g, obj, steps, false);
  }

  /** `:` followed by a path that starts with `../` is relative, and resolves that path. */
  lemma ParentReferenceResolves(g: Graph, obj: Value, steps: seq<Step>, root: Value)
    requires AllWritable(steps) && steps != [] && steps[0] == Up
    ensures IsReference(Str(":" + Render(steps, false)))
    ensures !IsAbsoluteReference(Str(":" + Render(steps, false)))
    ensures var s := ":" + Render(steps, false);
      GetReferencedValue(g, obj, s, root) == WrapLookupError(s, EvalSteps(g, obj, steps))
  {
    var p := Render(steps, false);
    var rest := Render(steps[1..], false);
    assert p == "../" + rest;
    assert ":" + p == ":../" + rest;
    ReferenceMarkers(rest);
    ResolvesParentPath(g, obj, rest, root);
    RenderedPathResolves(g, obj, steps, false);
  }

  /** `:/` followed by a path resolves it from the root, whatever object holds it. */
  lemma AbsoluteReferenceResolves(g: Graph, obj: Value, steps: seq<Step>, root: Value)
    requires AllWritable(steps)
    ensures IsAbsoluteReference(Str(":/" + Render(steps, false)))
    ensures var s := ":/" + Render(steps, false);
      GetReferencedValue(g, obj, s, root) == WrapLookupError(s, EvalSteps(g, root, steps))
  {
    var p := Render(steps, false);
    ReferenceMarkers(p);
    ResolvesRootPath(g, obj, p, root);
    RenderedPathResolves(g, root, steps, false);
  }

  /** `:../x` reads `x` from the parent of the object holding it. */
  lemma ParentExample(g: Graph, obj: Value, root: Value)
    ensures GetReferencedValue(g, obj, ":../x", root) ==
      WrapLookupError(":../x", EvalSteps(g, obj, [Up, Attr("x")]))
  {
    var steps := [Up, Attr("x")];
    assert IsAttributeName("x");
    assert AllWritable(steps);
    assert steps[1..] == [Attr("x")] && steps[1..][1..] == [];
    assert Render(steps[1..], false) == "x";
    assert Render(steps, false) == "../x";
    assert ":" + Render(steps, false) == ":../x";
    ParentReferenceResolves(g, obj, steps, root);
  }

  /** `:/a.b` reads `b` of `a` of the root, whatever object holds it. */
  lemma AbsoluteExample(g: Graph, obj: Value, root: Value)
    ensures GetReferencedValue(g, obj, ":/a.b", root) ==
      WrapLookupError(":/a.b", EvalSteps(g, root, [Attr("a"), Attr("b")]))
  {
    var steps := [Attr("a"), Attr("b")];
    assert IsAttributeName("a") && IsAttributeName("b");
    assert AllWritable(steps);
    assert steps[1..] == [Attr("b")] && steps[1..][1..] == [];
    assert Render(steps[1..], true) == ".b";
    assert Render(steps, false) == "a.b";
    assert ":/" + Render(steps, false) == ":/a.b";
    AbsoluteReferenceResolves(g, obj, steps, root);
  }
}
