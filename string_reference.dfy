/**
 * The reference mini-language: a string that starts with `:/`, `:./` or
 * `:../` names a value reachable from an object, by a path of `../`
 * (parent), `./` (same object), `[k]` (index or key) and `name` (attribute)
 * segments. Absolute references (`:/...`) start from the root, relative
 * ones from the object holding them.
 */
module StringReference {
  import opened Wrappers
  import opened Text
  import opened ObjectGraph

  /** The default splitters of `split_next_attribute`. */
  const Splitters := ".["
  /** The characters stripped from the front of the path on every step. */
  const Markers := ":/"
  /** The characters stripped from both ends of a non-numeric key. */
  const Quotes := "'\""

  // ---------------------------------------------------------------------
  // Recognising references

  /** `is_reference`: a str that starts with `:/`, `:./` or `:../`. */
  function IsReference(v: Value): (r: bool)
    ensures r ==> v.Str? && |v.chars| >= 2 && v.chars[0] == ':' && v.chars[1] in "/."
  {
    v.Str? && (StartsWith(v.chars, ":/") || StartsWith(v.chars, ":./") || StartsWith(v.chars, ":../"))
  }

  /**
   * `is_absolute_reference`: a reference that starts with `:/`. The
   * `is_reference` test in front is redundant for strings: every string
   * starting with `:/` is a reference.
   */
  function IsAbsoluteReference(v: Value): (r: bool)
    ensures r ==> IsReference(v)
    ensures v.Str? ==> (r <==> StartsWith(v.chars, ":/"))
  {
    if !IsReference(v) then false else StartsWith(v.chars, ":/")
  }

  /** Conversely, every reference is one of the three markers followed by a path. */
  lemma ReferenceHasMarker(v: Value)
    requires IsReference(v)
    ensures v.chars == ":/" + v.chars[2..] || v.chars == ":./" + v.chars[3..] || v.chars == ":../" + v.chars[4..]
  {
    var s := v.chars;
    if StartsWith(s, ":/") {
      assert s == s[..2] + s[2..];
    } else if StartsWith(s, ":./") {
      assert s == s[..3] + s[3..];
    } else {
      assert s == s[..4] + s[4..];
    }
  }

  /** A colon anywhere but at the very front does not make a reference. */
  lemma LiteralUnlessColonFirst(prefix: string, rest: string)
    requires prefix != [] && prefix[0] != ':'
    ensures !IsReference(Str(prefix + rest))
  {
    assert (prefix + rest)[0] == prefix[0];
  }

  /** Every tail after each of the three markers gives a reference; only `:/` is absolute. */
  lemma ReferenceMarkers(rest: string)
    ensures IsReference(Str(":/" + rest)) && IsAbsoluteReference(Str(":/" + rest))
    ensures IsReference(Str(":./" + rest)) && !IsAbsoluteReference(Str(":./" + rest))
    ensures IsReference(Str(":../" + rest)) && !IsAbsoluteReference(Str(":../" + rest))
  {
    assert (":/" + rest)[..2] == ":/";
    assert (":./" + rest)[..3] == ":./";
    assert (":../" + rest)[..4] == ":../";
  }

  /**
   * The doc comment's reading, "`:` not followed by `./` or `../`", agrees
   * with the `:/` test on every reference; the two differ only on strings
   * such as `:x`, which are no reference at all.
   */
  lemma AbsoluteAsDocumented(s: string)
    requires IsReference(Str(s))
    ensures IsAbsoluteReference(Str(s)) <==> StartsWith(s, ":") && !StartsWith(s, ":./") && !StartsWith(s, ":../")
  {
    ReferenceHasMarker(Str(s));
  }

  lemma ColonAloneIsNoReference()
    ensures !IsReference(Str(":x")) && !IsAbsoluteReference(Str(":x"))
  {
  }

  // ---------------------------------------------------------------------
  // Splitting off the next attribute

  /** The position of the first character of `s` that is a splitter, if any. */
  function FirstSplitterIndex(s: string, splitters: string): (r: Option<nat>)
    ensures r.Some? ==> r.value < |s| && s[r.value] in splitters
    ensures r.Some? ==> forall k :: 0 <= k < r.value ==> s[k] !in splitters
    ensures r.None? ==> forall k :: 0 <= k < |s| ==> s[k] !in splitters
  {
    if s == [] then None
    else if s[0] in splitters then Some(0)
    else
      match FirstSplitterIndex(s[1..], splitters)
      case None => None
      case Some(i) => Some(i + 1)
  }

  /**
   * The split `split_next_attribute` computes: the attribute name before
   * the first splitter, and the rest from that splitter on.
   */
  function SplitAtFirstSplitter(s: string, splitters: string): (r: (string, string))
    ensures r.0 + r.1 == s
    ensures forall k :: 0 <= k < |r.0| ==> r.0[k] !in splitters
    ensures r.1 == [] || r.1[0] in splitters
    ensures (forall k :: 0 <= k < |s| ==> s[k] !in splitters) ==> r == (s, [])
  {
    match FirstSplitterIndex(s, splitters)
    case None => (s, [])
    case Some(i) => (s[..i], s[i..])
  }

  /** A split into a splitter-free name and a rest that is empty or starts with a splitter locates the first splitter. */
  lemma {:induction false} SplitPosition(s: string, splitters: string, name: string, rest: string)
    requires name + rest == s
    requires forall k :: 0 <= k < |name| ==> name[k] !in splitters
    requires rest == [] || rest[0] in splitters
    ensures FirstSplitterIndex(s, splitters) == if rest == [] then None else Some(|name|)
  {
    if name == [] {
      assert rest == s;
    } else {
      assert s[0] == name[0];
      assert name[1..] + rest == s[1..];
      SplitPosition(s[1..], splitters, name[1..], rest);
    }
  }

  /** The three properties of the split determine it: there is exactly one such split. */
  lemma SplitUnique(s: string, splitters: string, name: string, rest: string)
    requires name + rest == s
    requires forall k :: 0 <= k < |name| ==> name[k] !in splitters
    requires rest == [] || rest[0] in splitters
    ensures SplitAtFirstSplitter(s, splitters) == (name, rest)
  {
    SplitPosition(s, splitters, name, rest);
    assert s[..|name|] == name && s[|name|..] == rest;
  }

  /** `split_next_attribute("a.b[0].c")` and its repetition on the rest. */
  lemma SplitExample()
    ensures SplitAtFirstSplitter("a.b[0].c", Splitters) == ("a", ".b[0].c")
    ensures SplitAtFirstSplitter("b[0].c", Splitters) == ("b", "[0].c")
    ensures SplitAtFirstSplitter("c", Splitters) == ("c", "")
  {
    SplitUnique("a.b[0].c", Splitters, "a", ".b[0].c");
    SplitUnique("b[0].c", Splitters, "b", "[0].c");
  }

  /** A splitter found by `str.index` means some splitter occurs at or before it. */
  lemma SplitterBound(s: string, splitters: string, c: char)
    requires c in splitters
    requires IndexOf(s, c).Some?
    ensures FirstSplitterIndex(s, splitters).Some?
    ensures FirstSplitterIndex(s, splitters).value <= IndexOf(s, c).value
  {
    var i := IndexOf(s, c).value;
    assert s[i] in splitters;
  }

  /** The splitter at the first splitter position is found there by `str.index`. */
  lemma FirstSplitterFound(s: string, splitters: string)
    requires FirstSplitterIndex(s, splitters).Some?
    ensures var i := FirstSplitterIndex(s, splitters).value;
      IndexOf(s, s[i]) == Some(i)
  {
    var i := FirstSplitterIndex(s, splitters).value;
    assert forall k :: 0 <= k < i ==> s[..i][k] == s[k];
    IndexOfFirst(s, s[i], i);
  }

  /** `min(positions.items(), key=position)`: the smallest position recorded, taken over the items one by one. */
  method MinPosition(positions: map<char, nat>) returns (least: nat)
    requires positions != map[]
    ensures exists c :: c in positions && positions[c] == least
    ensures forall c :: c in positions ==> least <= positions[c]
  {
    var first :| first in positions;
    least := positions[first];
    var pending := positions.Keys - {first};
    while pending != {}
      invariant pending <= positions.Keys
      invariant exists c :: c in positions && positions[c] == least
      invariant forall c :: c in positions && c !in pending ==> least <= positions[c]
      decreases pending
    {
      var c :| c in pending;
      if positions[c] < least {
        least := positions[c];
      }
      pending := pending - {c};
    }
  }

  /**
   * `split_next_attribute`: looks every splitter up with `str.index`,
   * keeping the positions of those present in a dict, and splits at the
   * smallest position, or returns `(s, "")` when no splitter occurs.
   */
  method SplitNextAttribute(s: string, splitters: string) returns (next: string, remaining: string)
    ensures (next, remaining) == SplitAtFirstSplitter(s, splitters)
  {
    var splitterIdxs: map<char, nat> := map[];
    for j := 0 to |splitters|
      invariant forall c :: c in splitterIdxs <==> c in splitters[..j] && IndexOf(s, c).Some?
      invariant forall c :: c in splitterIdxs ==> IndexOf(s, c) == Some(splitterIdxs[c])
    {
      var splitter := splitters[j];
      assert splitters[..j + 1] == splitters[..j] + [splitter];
      match IndexOf(s, splitter) {
        case Some(i) =>
          splitterIdxs := splitterIdxs[splitter := i];
        case None =>
          // str.index raised ValueError: this splitter does not occur
      }
    }
    assert splitters[..|splitters|] == splitters;

    if splitterIdxs == map[] {
      if FirstSplitterIndex(s, splitters).Some? {
        FirstSplitterFound(s, splitters);
        assert false;
      }
      return s, "";
    }

    var splitterIdx := MinPosition(splitterIdxs);
    var best :| best in splitterIdxs && splitterIdxs[best] == splitterIdx;
    SplitterBound(s, splitters, best);
    FirstSplitterFound(s, splitters);
    var i := FirstSplitterIndex(s, splitters).value;
    assert s[i] in splitterIdxs && splitterIdxs[s[i]] == i;
    return s[..splitterIdx], s[splitterIdx..];
  }

  // ---------------------------------------------------------------------
  // Keys inside brackets

  /**
   * The key read from `[k]`: `int(k)` when `k` is all digits, otherwise
   * `k` with its leading and then its trailing quote characters stripped.
   */
  function ParseKey(k: string): (r: Key)
    ensures r.IntKey? <==> IsDigits(k)
    ensures r.IntKey? ==> r.index >= 0
    ensures r.StrKey? ==> r.text == [] || (r.text[0] !in Quotes && r.text[|r.text| - 1] !in Quotes)
  {
    if IsDigits(k) then IntKey(DigitsValue(k))
    else
      var stripped := RStrip(LStrip(k, Quotes), Quotes);
      assert stripped != [] ==> stripped[0] == LStrip(k, Quotes)[0];
      StrKey(stripped)
  }

  /** The decimal digits of a natural number are read back as that index. */
  lemma ParseDecimalKey(n: nat)
    ensures ParseKey(Decimal(n)) == IntKey(n)
  {
  }

  /** The empty key of `[]` is not all digits, so it is the str key `""`. */
  lemma EmptyKeyIsText()
    ensures ParseKey("") == StrKey("")
  {
  }

  /** A key that is not all digits and has no quote at either end is read verbatim. */
  lemma ParseBareKey(k: string)
    requires !IsDigits(k)
    requires k == [] || (k[0] !in Quotes && k[|k| - 1] !in Quotes)
    ensures ParseKey(k) == StrKey(k)
  {
  }

  /** Stripping quotes from the left of a quoted key leaves the key and the closing quote. */
  lemma StripOpeningQuote(k: string, quote: char)
    requires quote in Quotes
    requires k == [] || k[0] !in Quotes
    ensures LStrip([quote] + k + [quote], Quotes) == if k == [] then [] else k + [quote]
  {
    var tail := k + [quote];
    assert [quote] + k + [quote] == [quote] + tail;
    LStripDrops(quote, tail, Quotes);
    if k == [] {
      assert tail == [quote] + [];
      LStripDrops(quote, [], Quotes);
    } else {
      assert tail[0] == k[0];
    }
  }

  /** Stripping quotes from the right of the key and its closing quote leaves the key. */
  lemma StripClosingQuote(k: string, quote: char)
    requires quote in Quotes
    requires k == [] || k[|k| - 1] !in Quotes
    ensures RStrip(k + [quote], Quotes) == k
  {
    var tail := k + [quote];
    assert tail[..|tail| - 1] == k;
  }

  /** A key quoted with `'` or `"` is read back as the text between the quotes. */
  lemma ParseQuotedKey(k: string, quote: char)
    requires quote in Quotes
    requires k == [] || (k[0] !in Quotes && k[|k| - 1] !in Quotes)
    ensures ParseKey([quote] + k + [quote]) == StrKey(k)
  {
    var q := [quote] + k + [quote];
    assert !IsDigit(q[0]);
    StripOpeningQuote(k, quote);
    StripClosingQuote(k, quote);
    assert ParseKey(q) == StrKey(RStrip(LStrip(q, Quotes), Quotes));
  }

  // ---------------------------------------------------------------------
  // Evaluating a path

  /** The failures raised by the lookups along a path (before any wrapping). */
  predicate IsLookupError(e: Error) {
    e.AttributeError? || e.KeyError? || e.IndexError? || e == TypeError || e == SubstringNotFound
  }

  /**
   * One step of `get_relative_reference_value` on a path already stripped
   * of leading `:` and `/`: the object its first segment leads to, and the
   * rest of the path, which is always strictly shorter.
   */
  function NextSegment(g: Graph, obj: Value, t: string): (r: Result<(Value, string)>)
    requires t != []
    ensures r.Ok? ==> |r.value.1| < |t|
    ensures r.Err? ==> IsLookupError(r.error)
  {
    if StartsWith(t, "../") then
      match GetAttr(g, obj, ParentAttr)
      case Err(e) => Err(e)
      case Ok(parent) => Ok((parent, t[3..]))
    else if StartsWith(t, "./") then
      Ok((obj, t[2..]))
    else if t[0] == '[' then
      match IndexOf(t, ']')
      case None => Err(SubstringNotFound)
      case Some(closeIdx) =>
        match GetItem(obj, ParseKey(t[1..closeIdx]))
        case Err(e) => Err(e)
        case Ok(item) => Ok((item, t[closeIdx + 1..]))
    else
      var u := if t[0] == '.' then t[1..] else t;
      var split := SplitAtFirstSplitter(u, Splitters);
      assert t[0] != '.' ==> split.0 != [];
      match GetAttr(g, obj, split.0)
      case Err(e) => Err(e)
      case Ok(attr) => Ok((attr, split.1))
  }

  /**
   * `get_relative_reference_value`: strips leading `:` and `/`, returns the
   * object when nothing is left, and otherwise takes one segment and
   * continues on the rest. Each recursive call receives a strictly shorter
   * string, so evaluation terminates.
   */
  function GetRelativeReferenceValue(g: Graph, obj: Value, s: string): (r: Result<Value>)
    ensures r.Err? ==> IsLookupError(r.error)
    decreases |s|
  {
    var t := LStrip(s, Markers);
    if t == [] then Ok(obj)
    else
      match NextSegment(g, obj, t)
      case Err(e) => Err(e)
      case Ok(next) => GetRelativeReferenceValue(g, next.0, next.1)
  }

  /** Evaluation depends only on what is left after stripping: a path and its stripped form evaluate the same. */
  lemma SameStrippedPath(g: Graph, obj: Value, s: string)
    ensures GetRelativeReferenceValue(g, obj, LStrip(s, Markers)) == GetRelativeReferenceValue(g, obj, s)
  {
  }

  /** Leading `:` and `/` are ignored wherever a path resumes, however many there are. */
  lemma MarkersIgnored(g: Graph, obj: Value, m: string, rest: string)
    requires forall i :: 0 <= i < |m| ==> m[i] in Markers
    ensures GetRelativeReferenceValue(g, obj, m + rest) == GetRelativeReferenceValue(g, obj, rest)
  {
    LStripPrefix(m, rest, Markers);
    SameStrippedPath(g, obj, m + rest);
    SameStrippedPath(g, obj, rest);
  }

  /** A path made only of `:` and `/` leaves the object unchanged. */
  lemma OnlyMarkersIsIdentity(g: Graph, obj: Value, m: string)
    requires forall i :: 0 <= i < |m| ==> m[i] in Markers
    ensures GetRelativeReferenceValue(g, obj, m) == Ok(obj)
  {
    MarkersIgnored(g, obj, m, "");
    assert m + "" == m;
  }

  /** `../` continues from the parent with the rest of the path. */
  lemma ParentStep(g: Graph, obj: Value, rest: string)
    ensures GetAttr(g, obj, ParentAttr).Err? ==>
      GetRelativeReferenceValue(g, obj, "../" + rest) == Err(AttributeError(ParentAttr))
    ensures GetAttr(g, obj, ParentAttr).Ok? ==>
      GetRelativeReferenceValue(g, obj, "../" + rest) ==
      GetRelativeReferenceValue(g, GetAttr(g, obj, ParentAttr).value, rest)
  {
    var t := "../" + rest;
    assert LStrip(t, Markers) == t;
    assert t[..3] == "../" && t[3..] == rest;
  }

  /** `./` continues from the same object with the rest of the path. */
  lemma CurrentStep(g: Graph, obj: Value, rest: string)
    ensures GetRelativeReferenceValue(g, obj, "./" + rest) == GetRelativeReferenceValue(g, obj, rest)
  {
    var t := "./" + rest;
    assert t[0] == '.' && t[1] == '/';
    assert LStrip(t, Markers) == t;
    assert !StartsWith(t, "../");
    assert StartsWith(t, "./");
    assert t[2..] == rest;
    assert NextSegment(g, obj, t) == Ok((obj, rest));
  }

  /** On `[k]...`, the step takes the bracket up to the first `]`. */
  lemma BracketSegment(g: Graph, obj: Value, k: string, rest: string)
    requires ']' !in k
    ensures var item := GetItem(obj, ParseKey(k));
      NextSegment(g, obj, "[" + k + "]" + rest) == if item.Err? then Err(item.error) else Ok((item.value, rest))
  {
    var t := "[" + k + "]" + rest;
    var closeIdx := |k| + 1;
    assert t[0] == '[' && t[closeIdx] == ']';
    assert !StartsWith(t, "../") && !StartsWith(t, "./");
    assert t[..closeIdx] == "[" + k;
    IndexOfFirst(t, ']', closeIdx);
    assert t[1..closeIdx] == k && t[closeIdx + 1..] == rest;
  }

  /** `[k]` looks the parsed key up and continues after the first `]`. */
  lemma IndexStep(g: Graph, obj: Value, k: string, rest: string)
    requires ']' !in k
    ensures GetItem(obj, ParseKey(k)).Err? ==>
      GetRelativeReferenceValue(g, obj, "[" + k + "]" + rest) == Err(GetItem(obj, ParseKey(k)).error)
    ensures GetItem(obj, ParseKey(k)).Ok? ==>
      GetRelativeReferenceValue(g, obj, "[" + k + "]" + rest) ==
      GetRelativeReferenceValue(g, GetItem(obj, ParseKey(k)).value, rest)
  {
    var t := "[" + k + "]" + rest;
    assert t[0] == '[';
    assert LStrip(t, Markers) == t;
    BracketSegment(g, obj, k, rest);
  }

  /** A `[` with no `]` after it fails where `str.index` raises ValueError. */
  lemma MissingBracket(g: Graph, obj: Value, k: string)
    requires ']' !in k
    ensures GetRelativeReferenceValue(g, obj, "[" + k) == Err(SubstringNotFound)
  {
    var t := "[" + k;
    assert t[0] == '[';
    assert LStrip(t, Markers) == t;
    assert !StartsWith(t, "../") && !StartsWith(t, "./");
    assert t == [t[0]] + k;
    assert ']' !in t;
    assert NextSegment(g, obj, t) == Err(SubstringNotFound);
  }

  /** An attribute name: non-empty, free of splitters, and not starting with a stripped character. */
  predicate IsAttributeName(name: string) {
    && name != []
    && name[0] !in Markers
    && forall k :: 0 <= k < |name| ==> name[k] !in Splitters
  }

  /** A bare name is read with `getattr`, and evaluation continues at the next splitter. */
  lemma AttributeStep(g: Graph, obj: Value, name: string, rest: string)
    requires IsAttributeName(name)
    requires rest == [] || rest[0] in Splitters
    ensures GetAttr(g, obj, name).Err? ==>
      GetRelativeReferenceValue(g, obj, name + rest) == Err(AttributeError(name))
    ensures GetAttr(g, obj, name).Ok? ==>
      GetRelativeReferenceValue(g, obj, name + rest) ==
      GetRelativeReferenceValue(g, GetAttr(g, obj, name).value, rest)
  {
    var t := name + rest;
    assert t[0] == name[0];
    assert LStrip(t, Markers) == t;
    assert !StartsWith(t, "../") && !StartsWith(t, "./");
    SplitUnique(t, Splitters, name, rest);
  }

  /** A `.` in front of a name is dropped before the name is read. */
  lemma DottedAttributeStep(g: Graph, obj: Value, name: string, rest: string)
    requires IsAttributeName(name)
    requires rest == [] || rest[0] in Splitters
    ensures GetAttr(g, obj, name).Err? ==>
      GetRelativeReferenceValue(g, obj, "." + name + rest) == Err(AttributeError(name))
    ensures GetAttr(g, obj, name).Ok? ==>
      GetRelativeReferenceValue(g, obj, "." + name + rest) ==
      GetRelativeReferenceValue(g, GetAttr(g, obj, name).value, rest)
  {
    var t := "." + name + rest;
    assert t[0] == '.' && t[1] == name[0];
    assert LStrip(t, Markers) == t;
    assert !StartsWith(t, "../") && !StartsWith(t, "./");
    assert t[1..] == name + rest;
    SplitUnique(t[1..], Splitters, name, rest);
  }

  // ---------------------------------------------------------------------
  // Resolving a reference

  /** Attribute and key failures become one reference error carrying `s`; the rest pass through. */
  function WrapLookupError(s: string, r: Result<Value>): (w: Result<Value>)
    ensures r.Ok? ==> w == r
    ensures r.Err? && (r.error.AttributeError? || r.error.KeyError?) ==> w == Err(InvalidReference(s, r.error))
    ensures r.Err? && !(r.error.AttributeError? || r.error.KeyError?) ==> w == r
  {
    match r
    case Ok(v) => Ok(v)
    case Err(e) => if e.AttributeError? || e.KeyError? then Err(InvalidReference(s, e)) else Err(e)
  }

  /**
   * `get_referenced_value`: rejects a non-reference, evaluates an absolute
   * reference from `root` and a relative one from `obj`, and wraps attribute
   * and key failures. IndexError, TypeError and a missing `]` escape as
   * they are.
   */
  function GetReferencedValue(g: Graph, obj: Value, s: string, root: Value): (r: Result<Value>)
    ensures !IsReference(Str(s)) ==> r == Err(NotAReference(s))
    ensures r.Err? && r.error.InvalidReference? ==>
      r.error.reference == s && (r.error.cause.AttributeError? || r.error.cause.KeyError?)
    ensures r.Err? ==> !r.error.AttributeError? && !r.error.KeyError?
    ensures r.Err? && IsReference(Str(s)) ==> !r.error.NotAReference?
  {
    if !IsReference(Str(s)) then Err(NotAReference(s))
    else
      var base := if IsAbsoluteReference(Str(s)) then root else obj;
      WrapLookupError(s, GetRelativeReferenceValue(g, base, s))
  }

  /** An absolute reference is evaluated, whole, from the root. */
  lemma ResolvesFromRoot(g: Graph, obj: Value, s: string, root: Value)
    requires StartsWith(s, ":/")
    ensures GetReferencedValue(g, obj, s, root) == WrapLookupError(s, GetRelativeReferenceValue(g, root, s))
  {
  }

  /** A relative reference is evaluated, whole, from the object holding it. */
  lemma ResolvesFromHolder(g: Graph, obj: Value, s: string, root: Value)
    requires IsReference(Str(s)) && !StartsWith(s, ":/")
    ensures GetReferencedValue(g, obj, s, root) == WrapLookupError(s, GetRelativeReferenceValue(g, obj, s))
  {
  }

  /** The `:` and `./` that open a relative reference do not move away from the holder. */
  lemma CurrentMarkerSkipped(g: Graph, obj: Value, p: string)
    ensures GetRelativeReferenceValue(g, obj, ":./" + p) == GetRelativeReferenceValue(g, obj, p)
  {
    assert ":./" + p == ":" + ("./" + p);
    MarkersIgnored(g, obj, ":", "./" + p);
    CurrentStep(g, obj, p);
  }

  /** `:./p` is a relative reference that evaluates `p` from the holder. */
  lemma ResolvesCurrentPath(g: Graph, obj: Value, p: string, root: Value)
    ensures GetReferencedValue(g, obj, ":./" + p, root) == WrapLookupError(":./" + p, GetRelativeReferenceValue(g, obj, p))
  {
    var s := ":./" + p;
    assert s[0] == ':' && s[1] == '.';
    assert !StartsWith(s, ":/") by { assert s[..2] != ":/"; }
    ResolvesFromHolder(g, obj, s, root);
    CurrentMarkerSkipped(g, obj, p);
  }

  /** The `:` that opens a reference to the parent is ignored. */
  lemma ParentMarkerSkipped(g: Graph, obj: Value, p: string)
    ensures GetRelativeReferenceValue(g, obj, ":../" + p) == GetRelativeReferenceValue(g, obj, "../" + p)
  {
    assert ":../" + p == ":" + ("../" + p);
    MarkersIgnored(g, obj, ":", "../" + p);
  }

  /** `:../p` is a relative reference that evaluates `../p` from the holder. */
  lemma ResolvesParentPath(g: Graph, obj: Value, p: string, root: Value)
    ensures GetReferencedValue(g, obj, ":../" + p, root) == WrapLookupError(":../" + p, GetRelativeReferenceValue(g, obj, "../" + p))
  {
    var s := ":../" + p;
    assert s[0] == ':' && s[1] == '.';
    assert !StartsWith(s, ":/") by { assert s[..2] != ":/"; }
    ResolvesFromHolder(g, obj, s, root);
    ParentMarkerSkipped(g, obj, p);
  }

  /** `:/p` is an absolute reference that evaluates `p` from the root. */
  lemma ResolvesRootPath(g: Graph, obj: Value, p: string, root: Value)
    ensures GetReferencedValue(g, obj, ":/" + p, root) == WrapLookupError(":/" + p, GetRelativeReferenceValue(g, root, p))
  {
    ReferenceMarkers(p);
    ResolvesFromRoot(g, obj, ":/" + p, root);
    MarkersIgnored(g, root, ":/", p);
  }

  /** The missing `]` escapes `get_referenced_value` as it is: it is not one of the wrapped errors. */
  lemma MissingBracketUnwrapped(g: Graph, obj: Value, k: string, root: Value)
    requires ']' !in k
    ensures GetReferencedValue(g, obj, ":./[" + k, root) == Err(SubstringNotFound)
  {
    assert ":./[" + k == ":./" + ("[" + k);
    ResolvesCurrentPath(g, obj, "[" + k, root);
    MissingBracket(g, obj, k);
  }

  /** An absolute reference does not depend on the object holding it. */
  lemma AbsoluteIgnoresHolder(g: Graph, obj: Value, obj': Value, s: string, root: Value)
    requires StartsWith(s, ":/")
    ensures GetReferencedValue(g, obj, s, root) == GetReferencedValue(g, obj', s, root)
  {
  }

  /** A relative reference does not depend on the root. */
  lemma RelativeIgnoresRoot(g: Graph, obj: Value, s: string, root: Value, root': Value)
    requires !StartsWith(s, ":/")
    ensures GetReferencedValue(g, obj, s, root) == GetReferencedValue(g, obj, s, root')
  {
  }
}
